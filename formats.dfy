/** The file extensions the editor accepts, already extracted from the path and lower-cased. */
module Formats {
  /** Extensions `load_animation` opens. */
  const LoadExtensions: seq<string> := [".gif", ".webp", ".jpg", ".jpeg", ".png"]

  /** Extensions `export_animation` writes. */
  const ExportExtensions: seq<string> := [".gif", ".webp"]

  /** Every format the editor writes is one it can read back. */
  lemma ExportableIsLoadable(ext: string)
    requires ext in ExportExtensions
    ensures ext in LoadExtensions
  {
  }

  /** Still images load, but only the two animated formats export. */
  lemma StillImagesDoNotExport()
    ensures ".png" in LoadExtensions && ".png" !in ExportExtensions
    ensures ".jpg" in LoadExtensions && ".jpg" !in ExportExtensions
    ensures ".jpeg" in LoadExtensions && ".jpeg" !in ExportExtensions
  {
  }
}
