/** Status codes and the optional value shared by every module. */
module Common {

  /** The errno values the modelled functions return. `Aborted` stands for a run stopped by one of the
      program's own `assert` calls; the state left behind by an aborted run is not described further. */
  datatype Err = Ok | EEXIST | ENOENT | ENOMEM | ENOSPC | E2BIG | EILSEQ | Aborted

  /** A pointer that may be NULL. */
  datatype Option<+T> = None | Some(value: T)
}
