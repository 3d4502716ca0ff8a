/**
  LOOP has one length, so its 8-bit fields are filled in after the layout has
  settled: local fields are patched in place and their relocations removed by
  swapping the remaining ones to the front.
 */
module Amd64Loops {
  import opened AsmSections
  import opened Bits
  import opened Wrappers
  import opened Amd64Program
  import opened Amd64Layout
  import opened Amd64Encode
  import opened Amd64RelocProof

  predicate IsLocal(reloc: Reloc, s: nat, labels: map<Name, (nat, nat)>) {
    reloc.kind.Relative8? && reloc.symbol in labels && labels[reloc.symbol].0 == s
  }

  function LoopDistance(reloc: Reloc, labels: map<Name, (nat, nat)>): int
    requires reloc.symbol in labels
  {
    labels[reloc.symbol].1 - reloc.offset + reloc.addend
  }

  predicate Reachable(reloc: Reloc, s: nat, labels: map<Name, (nat, nat)>) {
    IsLocal(reloc, s, labels) ==> -128 <= LoopDistance(reloc, labels) <= 127
  }

  /** The relocations among the first `n` that stay for the linker. */
  function Retained(relocs: seq<Reloc>, n: nat, s: nat, labels: map<Name, (nat, nat)>): (r: seq<Reloc>)
    requires n <= |relocs|
    ensures |r| <= n
  {
    if n == 0 then []
    else
      var rest := Retained(relocs, n - 1, s, labels);
      if IsLocal(relocs[n - 1], s, labels) then rest else rest + [relocs[n - 1]]
  }

  /** The data after patching the local fields among the first `n`. */
  function Patched(data: seq<Byte>, relocs: seq<Reloc>, n: nat, s: nat, labels: map<Name, (nat, nat)>): (d: seq<Byte>)
    requires n <= |relocs|
    requires forall x | 0 <= x < |relocs| :: relocs[x].offset < |data|
    ensures |d| == |data|
  {
    if n == 0 then data
    else
      var rest := Patched(data, relocs, n - 1, s, labels);
      if IsLocal(relocs[n - 1], s, labels) then
        rest[relocs[n - 1].offset := LoopDistance(relocs[n - 1], labels) % 256]
      else rest
  }

  predicate FieldsInside(sec: Section) {
    forall x | 0 <= x < |sec.relocs| :: sec.relocs[x].offset < |sec.data|
  }

  function Resolved(sec: Section, s: nat, labels: map<Name, (nat, nat)>): Section
    requires FieldsInside(sec)
  {
    sec.(
      data := Patched(sec.data, sec.relocs, |sec.relocs|, s, labels),
      relocs := Retained(sec.relocs, |sec.relocs|, s, labels))
  }

  ghost predicate AllReachable(sections: seq<Section>, labels: map<Name, (nat, nat)>) {
    forall s, x | 0 <= s < |sections| && 0 <= x < |sections[s].relocs| ::
      Reachable(sections[s].relocs[x], s, labels)
  }

  /** The error for the first LOOP, in section order, whose target is too far. */
  ghost predicate FirstUnreachable(
    sections: seq<Section>, labels: map<Name, (nat, nat)>, sites: map<(nat, nat), nat>, error: AsmError)
    requires SitesCover(sections, sites)
  {
    exists s, x | 0 <= s < |sections| && 0 <= x < |sections[s].relocs| ::
      && !Reachable(sections[s].relocs[x], s, labels)
      && (forall q, y | 0 <= q <= s && 0 <= y < |sections[q].relocs| && (q < s || y < x) ::
           Reachable(sections[q].relocs[y], q, labels))
      && error == At(LoopOutOfRange(sections[s].relocs[x].symbol), sites[(s, x)])
  }

  class EncodedPass {
    var sections: seq<Section>
    const layout: Layout
    const sites: map<(nat, nat), nat>

    constructor (pass: Pass)
      ensures sections == pass.sections && layout == pass.layout && sites == pass.sites
    {
      sections, layout, sites := pass.sections, pass.layout, pass.sites;
    }

    /** One section. The result is the index of its first unreachable LOOP, if any. */
    method ResolveSection(s: nat) returns (unreachable: Option<nat>)
      requires s < |sections| && FieldsInside(sections[s])
      modifies this`sections
      ensures unreachable.None? ==>
        && (forall x | 0 <= x < |old(sections)[s].relocs| ::
             Reachable(old(sections)[s].relocs[x], s, layout.labels))
        && sections == old(sections)[s := Resolved(old(sections)[s], s, layout.labels)]
      ensures unreachable.Some? ==>
        var x := unreachable.value;
        && x < |old(sections)[s].relocs|
        && !Reachable(old(sections)[s].relocs[x], s, layout.labels)
        && forall y | 0 <= y < x :: Reachable(old(sections)[s].relocs[y], s, layout.labels)
    {
      var data, relocs := sections[s].data, sections[s].relocs;
      ghost var original := sections[s];
      var retained := 0;
      for index := 0 to |relocs|
        invariant retained <= index <= |relocs| == |original.relocs|
        invariant relocs[index..] == original.relocs[index..]
        invariant relocs[..retained] == Retained(original.relocs, index, s, layout.labels)
        invariant data == Patched(original.data, original.relocs, index, s, layout.labels)
        invariant forall y | 0 <= y < index :: Reachable(original.relocs[y], s, layout.labels)
      {
        var reloc := relocs[index];
        assert reloc == relocs[index..][0] == original.relocs[index];
        assert relocs[index + 1..] == relocs[index..][1..] == original.relocs[index + 1..];
        if IsLocal(reloc, s, layout.labels) {
          var displacement := LoopDistance(reloc, layout.labels);
          if !(-128 <= displacement <= 127) {
            return Some(index);
          }
          data := data[reloc.offset := displacement % 256];
        } else {
          ghost var before := relocs;
          relocs := relocs[retained := reloc][index := relocs[retained]];
          assert relocs[..retained + 1] == before[..retained] + [reloc];
          assert relocs[index + 1..] == before[index..][1..];
          retained := retained + 1;
        }
      }
      sections := sections[s := sections[s].(data := data, relocs := relocs[..retained])];
      return None;
    }

    method ResolveLoops() returns (error: Option<AsmError>)
      requires forall s | 0 <= s < |sections| :: FieldsInside(sections[s])
      requires SitesCover(sections, sites)
      modifies this`sections
      ensures error.None? ==>
        && AllReachable(old(sections), layout.labels)
        && |sections| == |old(sections)|
        && forall s | 0 <= s < |sections| ::
             sections[s] == Resolved(old(sections)[s], s, layout.labels)
      ensures error.Some? ==> FirstUnreachable(old(sections), layout.labels, sites, error.value)
    {
      hide Resolved, Reachable, FieldsInside;
      ghost var original := sections;
      for s := 0 to |sections|
        invariant |sections| == |original|
        invariant forall q | 0 <= q < s :: sections[q] == Resolved(original[q], q, layout.labels)
        invariant forall q | s <= q < |sections| :: sections[q] == original[q]
        invariant forall q, y | 0 <= q < s && 0 <= y < |original[q].relocs| ::
          Reachable(original[q].relocs[y], q, layout.labels)
      {
        var relocs := sections[s].relocs;
        var unreachable := ResolveSection(s);
        if unreachable.Some? {
          var x := unreachable.value;
          assert original[s].relocs == relocs;
          return Some(At(LoopOutOfRange(relocs[x].symbol), sites[(s, x)]));
        }
      }
      return None;
    }
  }

  /** Patching writes each local field once and touches no other byte. */
  lemma {:induction false} PatchedBytes(
    data: seq<Byte>, relocs: seq<Reloc>, n: nat, s: nat, labels: map<Name, (nat, nat)>)
    requires n <= |relocs| && Increasing(relocs, |data|)
    ensures forall x | 0 <= x < n && IsLocal(relocs[x], s, labels) ::
      Patched(data, relocs, n, s, labels)[relocs[x].offset] == LoopDistance(relocs[x], labels) % 256
    ensures forall p | 0 <= p < |data| ::
      (forall x | 0 <= x < n && IsLocal(relocs[x], s, labels) :: relocs[x].offset != p)
      ==> Patched(data, relocs, n, s, labels)[p] == data[p]
  {
    if n > 0 {
      PatchedBytes(data, relocs, n - 1, s, labels);
    }
  }

  /** Exactly the other relocations stay, in their original order. */
  lemma {:induction false} RetainedExactly(
    relocs: seq<Reloc>, n: nat, s: nat, labels: map<Name, (nat, nat)>, bound: nat)
    requires n <= |relocs| && Increasing(relocs, bound)
    ensures var kept := Retained(relocs, n, s, labels);
            && (forall r :: r in kept <==> r in relocs[..n] && !IsLocal(r, s, labels))
            && (forall x, y | 0 <= x < y < |kept| :: kept[x].offset < kept[y].offset)
  {
    if n > 0 {
      RetainedExactly(relocs, n - 1, s, labels, bound);
      assert relocs[..n] == relocs[..n - 1] + [relocs[n - 1]];
      var rest := Retained(relocs, n - 1, s, labels);
      forall x | 0 <= x < |rest|
        ensures rest[x].offset < relocs[n - 1].offset
      {
        assert rest[x] in relocs[..n - 1];
      }
    }
  }
}
