/** What several parts of the kernel share. */
module Basics {

  const PAGE_SIZE: nat := 4096

  datatype Option<+T> = None | Some(value: T)

  function Min(a: nat, b: nat): nat { if a < b then a else b }

  function Max(a: nat, b: nat): nat { if a < b then b else a }
}
