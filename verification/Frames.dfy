/** The frames of a file transfer after decoding, and the versions a file goes through. */
module Frames {
  import opened Basics

  /** The error codes a peer can put in an ERROR frame. */
  datatype ErrorCode =
    | NotFound | PermissionDenied | IOError | BadOffset | ProtocolError | SizeMismatch | Unsupported

  /** The frames a file transfer exchanges, after decoding. */
  datatype Frame =
    | GetResp(status: nat, total: nat, mtime: int)
    | DeltaResp(status: nat, total: nat, mtime: int)
    | PutResp(status: nat, resume: nat)
    | FileData(data: Bytes)
    | BlockKeep
    | FileEnd
    | Error(code: ErrorCode)
    | Other

  /** One state of a file on the machine that owns it. */
  datatype Version = Version(content: Bytes, mtime: int)
}
