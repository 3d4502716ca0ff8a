/** Section names and kinds, as every assembler of the toolchain knows them. */
module AsmSections {

  type Name = string

  const ISIZE_MAX := 0x7fff_ffff_ffff_ffff

  datatype SectionKind = Text | Data | ReadOnlyData | Bss

  function FirstIndex(names: seq<Name>, name: Name): (i: nat)
    ensures i <= |names|
    ensures i < |names| ==> names[i] == name
    ensures forall j | 0 <= j < i :: names[j] != name
  {
    if names == [] then 0
    else if names[0] == name then 0
    else
      var rest := FirstIndex(names[1..], name);
      assert forall j | 1 <= j < 1 + rest :: names[j] == names[1..][j - 1];
      1 + rest
  }

  function DefaultKind(name: Name): SectionKind {
    if name == ".text" then Text
    else if name == ".rodata" then ReadOnlyData
    else if name == ".bss" then Bss
    else Data
  }
}
