/** Failure-carrying results shared by every component of the reader. */
module Wrappers {

  datatype Option<+T> = None | Some(value: T)

  /** The reasons the reader reports through errno, one constructor per errno value it sets. */
  datatype Error =
    | InvalidArgument  // EFAULT: a negative or zero argument, or an absent buffer
    | OutOfRange       // ERANGE: a disk read past the end of the image
    | Invalid          // EINVAL: a rejected boot sector, differing FAT copies, an unknown seek origin
    | IsDirectory      // EISDIR: the named entry is a directory or a volume label
    | NotFound         // ENOENT: no such root entry, or a directory path that is not the root
    | NoSuchDevice     // ENXIO: a seek target outside the file, a directory sector past the region
    | IoError          // EIO: a directory sector could not be read
    | Unset            // NULL returned without touching errno (end marker met while opening a file)

  datatype Result<+T> = Ok(value: T) | Err(error: Error)
}
