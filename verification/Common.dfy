/** Types shared by the models: options, bytes and 4 KB memory pages. */
module Common {

  datatype Option<+T> = None | Some(value: T)

  type byte = bv8

  const PAGE_SIZE: nat := 4096

  /** The contents of one page of physical memory or of one swap slot. */
  type Page = s: seq<byte> | |s| == PAGE_SIZE witness seq(PAGE_SIZE, _ => 0)

  function Min(a: nat, b: nat): nat {
    if a < b then a else b
  }
}
