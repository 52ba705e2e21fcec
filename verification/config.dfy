/** The constants of the configuration module and of the conversion script
    that the modelled code reads. */
module Config {

  /** Sub-directory holding images, both in the per-request temporary
      directory and in the batch output directory. */
  const ImagesDirName: string := "images"

  /** Prefix of the per-request temporary directory name. */
  const TempDirPrefix: string := "temp_"

  /** Lower-case suffixes that mark a file as an image to relocate. */
  const ImageExtensions: seq<string> := [".png", ".jpg", ".jpeg", ".gif", ".bmp"]

  /** The reference manager's data directory (note the trailing backslash). */
  const DataDir: string := "D:\\AppData\\ZoteroData\\"

  /** Name of the attachment storage directory inside the data directory. */
  const StorageDirName: string := "storage"

  /** Extension of every markdown file the scripts write. */
  const MarkdownExt: string := ".md"

  /** Page limit the batch script passes to the orchestrator. */
  const DefaultMaxPages: int := 100
}
