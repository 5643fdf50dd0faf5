/** The content-type and extension resolver of the upload handler
    (index.js:93-96). The media-type-to-extension table of the `mime-types`
    package is not part of this model: it is a parameter, `lookup`, that
    gives an extension or nothing (`false` in JavaScript). */
module ContentType {
  import opened Wrappers

  /** The fallback content type when no media type was declared. */
  const OctetStream: string := "application/octet-stream"

  /** The extensions a stored object may carry, `safeExts` at index.js:94. */
  const SafeExtensions: set<string> := {"png", "jpg", "jpeg", "webp"}

  /** The extension used whenever the looked-up one is missing or unsafe. */
  const DefaultExtension: string := "png"

  datatype Resolved = Resolved(contentType: string, ext: string)

  /** Lines 93-96: the declared type or the fallback, and the extension the
      table gives for it (`|| "png"` for a missing or empty one), clamped to
      the safe set. */
  function Resolve(mimeType: string, lookup: string -> Option<string>): (r: Resolved)
    ensures r.ext in SafeExtensions
  {
    var contentType := if mimeType != "" then mimeType else OctetStream;
    var ext := match lookup(contentType)
      case Some(e) => if e != "" then e else DefaultExtension
      case None => DefaultExtension;
    Resolved(contentType, if ext in SafeExtensions then ext else DefaultExtension)
  }

  /** The content type is the declared one, or the fallback when none was
      declared; the table and the clamp never change it. */
  lemma ResolveContentType(mimeType: string, lookup: string -> Option<string>, other: string -> Option<string>)
    ensures Resolve(mimeType, lookup).contentType == (if mimeType == "" then OctetStream else mimeType)
    ensures Resolve(mimeType, lookup).contentType == Resolve(mimeType, other).contentType
  {
  }

  /** The extension is the table's when that one is safe, and "png" in every
      other case, a missing entry included. */
  lemma ResolveExtension(mimeType: string, lookup: string -> Option<string>)
    ensures var found := lookup(Resolve(mimeType, lookup).contentType);
      Resolve(mimeType, lookup).ext
        == if found.Some? && found.value in SafeExtensions then found.value else "png"
  {
  }

  /** No safe extension holds a `/`, so the extension never adds a segment
      to a key. */
  lemma SafeExtensionsUnslashed(ext: string)
    requires ext in SafeExtensions
    ensures '/' !in ext
  {
  }
}
