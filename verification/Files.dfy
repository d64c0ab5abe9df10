/** struct FileInfo. */
module Files {
  datatype FileInfo = FileInfo(filename: string, filepath: string, size: nat, hash: string, lastModified: int)
}
