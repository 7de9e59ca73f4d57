// Result types shared by every module.
module Wrappers {
  datatype Option<+T> = None | Some(value: T)

  // The error returns of the source; `Failed` is a step (disk, git, key source) that broke.
  datatype Error = NotFound | Conflict | Malformed | Undecryptable | NotReady | Failed(step: string)

  datatype Result<+T> = Ok(value: T) | Err(error: Error)
}
