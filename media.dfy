/**
 * The boundary to the hosted image service. `uploadImageToCloudinary(buffer, folder)`
 * resolves to the secure URL of the stored image or to `null`, and never throws; here
 * it is a function the workflows receive, from a file's bytes and a folder name to an
 * optional URL.
 */
module Media {
  import opened Wrappers

  /** A file field of a multipart form; its size is the number of its bytes. */
  datatype File = File(name: string, bytes: seq<bv8>)

  type Uploader = (seq<bv8>, string) -> Option<string>

  /** Default folder of `uploadImageToCloudinary`, used for property images. */
  const PropertyFolder := "immokraini_properties"

  /** Folder used for agent portraits. */
  const AgentFolder := "immokraini_agents"

  /** `file && file.size > 0`: only such files are handed to the uploader. */
  predicate HasContent(f: Option<File>) {
    f.Some? && |f.value.bytes| > 0
  }
}
