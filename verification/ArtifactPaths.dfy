/**
  Artifact names as relative paths: which names a backend may emit, and the
  detection of paths that would overwrite each other, by ordered lookup.
  A string is a sequence of Unicode scalar values; their order is the byte order
  of UTF-8.
 */
module ArtifactPaths {
  import opened Wrappers

  datatype ArtifactError = NoArtifacts | InvalidPath(name: string) | Conflict(name: string, other: string)

  function FoldChar(c: char): char {
    if 'A' <= c <= 'Z' then c - 'A' + 'a' else c
  }

  /** `to_ascii_lowercase`. */
  function Fold(s: string): (r: string)
    ensures |r| == |s|
  {
    seq(|s|, i requires 0 <= i < |s| => FoldChar(s[i]))
  }

  /** `split('/')`: the components of a path. */
  function Split(path: string): (parts: seq<string>)
    ensures |parts| > 0
  {
    if path == [] then [[]]
    else
      var rest := Split(path[1..]);
      if path[0] == '/' then [[]] + rest else [[path[0]] + rest[0]] + rest[1..]
  }

  function Join(parts: seq<string>): string {
    if parts == [] then []
    else if |parts| == 1 then parts[0]
    else parts[0] + "/" + Join(parts[1..])
  }

  predicate IsControl(c: char) {
    c <= '\U{1F}' || '\U{7F}' <= c <= '\U{9F}'
  }

  function UntilDot(part: string): string {
    if part == [] || part[0] == '.' then [] else [part[0]] + UntilDot(part[1..])
  }

  function TrimSpaces(s: string): string {
    if s != [] && s[|s| - 1] == ' ' then TrimSpaces(s[..|s| - 1]) else s
  }

  /** `portable_component`: names that every supported file system can hold. */
  predicate PortableComponent(part: string) {
    && part != "" && part != "." && part != ".."
    && part[|part| - 1] != '.' && part[|part| - 1] != ' '
    && (forall c | c in part :: !IsControl(c) && c !in "\\:<>\"|?*")
    && !IsDevice(TrimSpaces(UntilDot(part)))
  }

  /** Names that Windows reserves for devices, in any case. */
  predicate IsDevice(basename: string) {
    var name := Fold(basename);
    || name in ["con", "prn", "aux", "nul", "conin$", "conout$"]
    || (|name| == 4 && name[..3] in ["com", "lpt"] && name[3] in "123456789\U{B9}\U{B2}\U{B3}")
  }

  function Spaces(n: nat): string {
    seq(n, _ => ' ')
  }

  lemma {:induction false} UntilDotStops(base: string, extension: string)
    requires '.' !in base
    ensures UntilDot(base) == base && UntilDot(base + "." + extension) == base
  {
    if base == [] {
      assert base + "." + extension == ['.'] + extension;
    } else {
      UntilDotStops(base[1..], extension);
      assert (base + "." + extension)[1..] == base[1..] + "." + extension;
    }
  }

  lemma {:induction false} TrimSpacesStops(base: string, n: nat)
    requires base == [] || base[|base| - 1] != ' '
    ensures TrimSpaces(base + Spaces(n)) == base
  {
    if n == 0 {
      assert base + Spaces(0) == base;
    } else {
      TrimSpacesStops(base, n - 1);
      assert (base + Spaces(n))[..|base| + n - 1] == base + Spaces(n - 1);
    }
  }

  /** A device name is refused in any case, with any spaces and any extension behind it. */
  lemma DevicesRefused(device: string, n: nat, extension: string)
    requires IsDevice(device)
    ensures !PortableComponent(device)
    ensures !PortableComponent(device + Spaces(n) + "." + extension)
  {
    hide UntilDot, TrimSpaces;
    var last := |device| - 1;
    assert Fold(device)[last] == FoldChar(device[last]);
    assert forall i | 0 <= i < |device| :: Fold(device)[i] == FoldChar(device[i]);
    NoDotInDevice(device);
    UntilDotStops(device, extension);
    UntilDotStops(device + Spaces(n), extension);
    TrimSpacesStops(device, n);
    TrimSpacesStops(device, 0);
    assert device + Spaces(0) == device;
  }

  lemma NoDotInDevice(device: string)
    requires IsDevice(device)
    ensures '.' !in device && device != [] && device[|device| - 1] != ' '
  {
    var name := Fold(device);
    forall i: nat | i < |device| ensures device[i] != '.' && device[i] != ' ' {
      assert name[i] == FoldChar(device[i]);
      assert FoldChar('.') == '.' && FoldChar(' ') == ' ';
      if |name| == 4 && name[..3] in ["com", "lpt"] && i < 3 {
        assert name[..3][i] == name[i];
      }
    }
  }

  predicate ValidPath(path: string) {
    forall part | part in Split(path) :: PortableComponent(part)
  }

  /** The components of `a` are the leading components of `b`. */
  predicate Ancestor(a: string, b: string) {
    Split(a) < Split(b)
  }

  /** Two names that cannot both be files on a case-insensitive file system. */
  predicate Conflicts(x: string, y: string) {
    Collides(Fold(x), Fold(y))
  }

  predicate Collides(x: string, y: string) {
    x == y || Ancestor(x, y) || Ancestor(y, x)
  }

  lemma {:induction false} JoinSplit(path: string)
    ensures Join(Split(path)) == path
  {
    if path != [] {
      JoinSplit(path[1..]);
      var rest := Split(path[1..]);
      if path[0] == '/' {
        assert Split(path)[1..] == rest;
      } else {
        assert Split(path)[1..] == rest[1..];
      }
    }
  }

  lemma SplitStep(c: char, s: string)
    ensures Split([c] + s) == if c == '/' then [[]] + Split(s) else [[c] + Split(s)[0]] + Split(s)[1..]
  {
    assert ([c] + s)[1..] == s;
  }

  lemma {:induction false} SplitConcat(a: string, c: string)
    ensures Split(a + "/" + c) == Split(a) + Split(c)
  {
    if a == [] {
      assert a + "/" + c == ['/'] + c;
      SplitStep('/', c);
      assert Split(a) == [[]];
    } else {
      SplitConcat(a[1..], c);
      SplitStep(a[0], a[1..] + "/" + c);
      SplitStep(a[0], a[1..]);
      assert a + "/" + c == [a[0]] + (a[1..] + "/" + c) && a == [a[0]] + a[1..];
      hide Split;
      PrependFirst(a[0], Split(a[1..]), Split(c));
    }
  }

  lemma PrependFirst(c: char, x: seq<string>, y: seq<string>)
    requires x != []
    ensures [[c] + (x + y)[0]] + (x + y)[1..] == [[c] + x[0]] + x[1..] + y
    ensures [[]] + (x + y) == [[]] + x + y
  {
    assert (x + y)[1..] == x[1..] + y;
  }

  lemma {:induction false} JoinConcat(x: seq<string>, y: seq<string>)
    requires x != [] && y != []
    ensures Join(x + y) == Join(x) + "/" + Join(y)
  {
    if |x| == 1 {
      assert (x + y)[1..] == y;
    } else {
      JoinConcat(x[1..], y);
      assert (x + y)[1..] == x[1..] + y;
    }
  }

  /** Being an ancestor is having the path and a separator as a string prefix. */
  lemma AncestorIsPrefix(a: string, b: string)
    ensures Ancestor(a, b) <==> a + "/" <= b
  {
    hide Split, Join;
    if a + "/" <= b {
      var c := b[|a| + 1..];
      assert b == a + "/" + c;
      SplitConcat(a, c);
    }
    if Ancestor(a, b) {
      var rest := Split(b)[|Split(a)|..];
      assert Split(b) == Split(a) + rest;
      JoinConcat(Split(a), rest);
      JoinSplit(a);
      JoinSplit(b);
    }
  }

  lemma AncestorAt(a: string, b: string)
    requires |a| < |b|
    ensures Ancestor(a, b) <==> a == b[..|a|] && b[|a|] == '/'
  {
    hide Ancestor;
    AncestorIsPrefix(a, b);
    assert b[..|a| + 1] == b[..|a|] + [b[|a|]];
    assert a + "/" <= b <==> a + "/" == b[..|a| + 1];
  }

  /** The order of the map's keys. */
  predicate Less(a: string, b: string) {
    if b == [] then false
    else if a == [] then true
    else a[0] < b[0] || (a[0] == b[0] && Less(a[1..], b[1..]))
  }

  lemma {:induction false} LessTransitive(a: string, b: string, c: string)
    requires Less(a, b) && Less(b, c)
    ensures Less(a, c)
  {
    if a != [] && a[0] == b[0] == c[0] {
      LessTransitive(a[1..], b[1..], c[1..]);
    }
  }

  lemma {:induction false} LessTotal(a: string, b: string)
    ensures !(Less(a, b) && Less(b, a)) && (!Less(a, b) && !Less(b, a) ==> a == b)
    ensures a == b ==> !Less(a, b)
  {
    if a != [] && b != [] && a[0] == b[0] {
      LessTotal(a[1..], b[1..]);
      assert a == [a[0]] + a[1..] && b == [b[0]] + b[1..];
    }
  }

  lemma {:induction false} PrefixNotGreater(p: string, k: string)
    requires p <= k
    ensures !Less(k, p)
  {
    if p != [] {
      PrefixNotGreater(p[1..], k[1..]);
    }
  }

  /** Between a prefix and a string that has it, every string has it. */
  lemma {:induction false} BetweenHasPrefix(p: string, f: string, k: string)
    requires p <= k && !Less(f, p) && !Less(k, f)
    ensures p <= f
  {
    if p != [] {
      assert f != [] && f[0] == p[0];
      BetweenHasPrefix(p[1..], f[1..], k[1..]);
      assert f == [f[0]] + f[1..] && p == [p[0]] + p[1..];
    }
  }

  predicate Sorted(keys: seq<string>) {
    forall i, j | 0 <= i < j < |keys| :: Less(keys[i], keys[j])
  }

  /** The position of the first key that is not below `key`. */
  function LowerBound(keys: seq<string>, key: string): (n: nat)
    ensures n <= |keys|
    ensures forall i | 0 <= i < n :: Less(keys[i], key)
    ensures n < |keys| ==> !Less(keys[n], key)
  {
    if keys == [] || !Less(keys[0], key) then 0 else 1 + LowerBound(keys[1..], key)
  }

  lemma LookupFinds(keys: seq<string>, key: string)
    requires Sorted(keys)
    ensures key in keys <==> LowerBound(keys, key) < |keys| && keys[LowerBound(keys, key)] == key
  {
    hide Less;
    var n := LowerBound(keys, key);
    if key in keys {
      var i: nat :| i < |keys| && keys[i] == key;
      LessTotal(key, key);
      assert n == i;
    }
  }

  lemma LowerBoundBefore(keys: seq<string>, key: string, k: nat)
    requires k < |keys| && !Less(keys[k], key)
    ensures LowerBound(keys, key) <= k
  {
    hide Less;
  }

  /** The first key from `p/` on has the prefix `p/` whenever any key has it. */
  lemma FirstFromPrefix(keys: seq<string>, prefix: string, k: nat)
    requires Sorted(keys) && k < |keys| && prefix <= keys[k]
    ensures LowerBound(keys, prefix) <= k && prefix <= keys[LowerBound(keys, prefix)]
  {
    hide Less;
    PrefixNotGreater(prefix, keys[k]);
    LowerBoundBefore(keys, prefix, k);
    EarlierHasPrefix(keys, prefix, LowerBound(keys, prefix), k);
  }

  lemma EarlierHasPrefix(keys: seq<string>, prefix: string, n: nat, k: nat)
    requires Sorted(keys) && n <= k < |keys| && prefix <= keys[k] && !Less(keys[n], prefix)
    ensures prefix <= keys[n]
  {
    hide Less;
    LessTotal(keys[n], keys[k]);
    BetweenHasPrefix(prefix, keys[n], keys[k]);
  }

  /** A pair is added at one position of both sequences. */
  ghost predicate InsertedInto(
    keys: seq<string>, owners: seq<string>, key: string, owner: string, keys1: seq<string>, owners1: seq<string>)
  {
    exists n: nat | n <= |keys| && n <= |owners| ::
      keys1 == keys[..n] + [key] + keys[n..] && owners1 == owners[..n] + [owner] + owners[n..]
  }

  /** The map from folded names to the names that claimed them. */
  class NameTable {
    var keys: seq<string>
    var owners: seq<string>

    predicate Valid()
      reads this
    {
      Sorted(keys) && |owners| == |keys|
    }

    constructor ()
      ensures Valid() && keys == [] && owners == []
    {
      keys, owners := [], [];
    }

    method Get(key: string) returns (found: Option<nat>)
      requires Valid()
      ensures found.None? <==> key !in keys
      ensures found.Some? ==> found.value < |keys| && keys[found.value] == key
    {
      var n := LowerBound(keys, key);
      LookupFinds(keys, key);
      return if n < |keys| && keys[n] == key then Some(n) else None;
    }

    /** The key of the shortest proper ancestor that is present. */
    method FindAncestor(path: string) returns (found: Option<nat>)
      requires Valid()
      ensures found.None? <==> forall k | k in keys :: !Ancestor(k, path)
      ensures found.Some? ==> found.value < |keys| && Ancestor(keys[found.value], path)
    {
      hide Ancestor, Less, Sorted;
      for at := 0 to |path|
        invariant forall k | k in keys && |k| < at :: !Ancestor(k, path)
      {
        AncestorAt(path[..at], path);
        if path[at] == '/' {
          found := Get(path[..at]);
          if found.Some? {
            return;
          }
        }
        forall k | k in keys && |k| == at ensures !Ancestor(k, path) {
          AncestorAt(k, path);
        }
      }
      forall k | k in keys ensures !Ancestor(k, path) {
        AncestorIsPrefix(k, path);
      }
      return None;
    }

    method FindDescendant(path: string) returns (found: Option<nat>)
      requires Valid()
      ensures found.None? <==> forall k | k in keys :: !Ancestor(path, k)
      ensures found.Some? ==> found.value < |keys| && Ancestor(path, keys[found.value])
    {
      hide Ancestor, Less;
      var prefix := path + "/";
      var n := LowerBound(keys, prefix);
      forall i: nat | i < |keys|
        ensures Ancestor(path, keys[i]) <==> prefix <= keys[i]
        ensures prefix <= keys[i] ==> n < |keys| && prefix <= keys[n]
      {
        AncestorIsPrefix(path, keys[i]);
        if prefix <= keys[i] {
          FirstFromPrefix(keys, prefix, i);
        }
      }
      if n < |keys| && prefix <= keys[n] {
        return Some(n);
      }
      return None;
    }

    /** A key that the path equals, lies below, or lies above. */
    method FindConflict(path: string) returns (found: Option<nat>)
      requires Valid()
      ensures found.None? <==> forall k | k in keys :: !Collides(k, path)
      ensures found.Some? ==> found.value < |keys| && Collides(keys[found.value], path)
    {
      hide Ancestor, Less, Sorted;
      found := Get(path);
      if found.None? {
        found := FindAncestor(path);
      }
      if found.None? {
        found := FindDescendant(path);
      }
    }

    method Insert(key: string, owner: string)
      requires Valid() && key !in keys
      modifies this
      ensures Valid()
      ensures InsertedInto(old(keys), old(owners), key, owner, keys, owners)
    {
      hide Less;
      var n := LowerBound(keys, key);
      if n < |keys| {
        LessTotal(keys[n], key);
        forall j | n < j < |keys| ensures Less(key, keys[j]) {
          LessTransitive(key, keys[n], keys[j]);
        }
      }
      keys := keys[..n] + [key] + keys[n..];
      owners := owners[..n] + [owner] + owners[n..];
    }
  }

  /** Name `i` can be added to the names before it. */
  predicate Admissible(names: seq<string>, i: nat)
    requires i < |names|
  {
    ValidPath(names[i]) && forall j | 0 <= j < i :: !Conflicts(names[j], names[i])
  }

  /** Artifacts are accepted exactly when there is one, all names are valid, and no
      two of them are equal up to case or one inside the other. Otherwise the first
      name that breaks this is reported, with an earlier name it conflicts with. */
  method CheckArtifacts(names: seq<string>) returns (error: Option<ArtifactError>)
    ensures error.None? <==>
      && names != [] && (forall i | 0 <= i < |names| :: ValidPath(names[i]))
      && (forall i, j | 0 <= i < j < |names| :: !Conflicts(names[i], names[j]))
    ensures error == Some(NoArtifacts) <==> names == []
    ensures error.Some? && names != [] ==> exists i: nat | i < |names| ::
      && (forall q: nat | q < i :: Admissible(names, q))
      && (if !ValidPath(names[i]) then error == Some(InvalidPath(names[i]))
          else exists j: nat | j < i :: Conflicts(names[j], names[i]) && error == Some(Conflict(names[i], names[j])))
  {
    hide ValidPath, Collides, Sorted, Fold, Claims, InsertedInto, Admissible;
    if names == [] {
      return Some(NoArtifacts);
    }
    var table := new NameTable();
    ClaimsNothing();
    for i := 0 to |names|
      invariant fresh(table) && table.Valid()
      invariant Claims(table.keys, table.owners, names[..i])
      invariant forall q: nat | q < i :: Admissible(names, q)
    {
      if !ValidPath(names[i]) {
        return Some(InvalidPath(names[i]));
      }
      var folded := Fold(names[i]);
      var other := table.FindConflict(folded);
      if other.Some? {
        var j := ClaimedBy(table.keys, table.owners, names[..i], other.value);
        return Some(Conflict(names[i], table.owners[other.value]));
      }
      CollidesSelf(folded);
      AdmitNext(names, i, table.keys, table.owners);
      ghost var keys, owners := table.keys, table.owners;
      table.Insert(folded, names[i]);
      ClaimsNext(keys, owners, names[..i], names[i], table.keys, table.owners);
      assert names[..i] + [names[i]] == names[..i + 1];
    }
    AllAdmissible(names);
    return None;
  }

  lemma CollidesSelf(path: string)
    ensures Collides(path, path)
  {
  }

  lemma AdmitNext(names: seq<string>, i: nat, keys: seq<string>, owners: seq<string>)
    requires i < |names| && ValidPath(names[i]) && Claims(keys, owners, names[..i])
    requires forall k | k in keys :: !Collides(k, Fold(names[i]))
    ensures Admissible(names, i)
  {
    hide Collides, Fold, ValidPath;
    forall j | 0 <= j < i ensures !Conflicts(names[j], names[i]) {
      assert names[..i][j] == names[j];
    }
  }

  lemma AllAdmissible(names: seq<string>)
    ensures (forall q: nat | q < |names| :: Admissible(names, q)) <==>
      && (forall i | 0 <= i < |names| :: ValidPath(names[i]))
      && (forall i, j | 0 <= i < j < |names| :: !Conflicts(names[i], names[j]))
  {
    hide ValidPath, Conflicts;
    if forall q: nat | q < |names| :: Admissible(names, q) {
      forall i: nat, j: nat | i < j < |names| ensures !Conflicts(names[i], names[j]) {
        assert Admissible(names, j);
      }
      forall i: nat | i < |names| ensures ValidPath(names[i]) {
        assert Admissible(names, i);
      }
    }
  }

  /** The table holds the folded names, each with an owner that folds to it. */
  ghost predicate Claims(keys: seq<string>, owners: seq<string>, names: seq<string>) {
    && |keys| == |owners|
    && (forall k | 0 <= k < |keys| :: owners[k] in names && keys[k] == Fold(owners[k]))
    && (forall name | name in names :: Fold(name) in keys)
  }

  lemma ClaimsNothing()
    ensures Claims([], [], [])
  {
  }

  lemma ClaimedBy(keys: seq<string>, owners: seq<string>, names: seq<string>, k: nat) returns (j: nat)
    requires Claims(keys, owners, names) && k < |keys|
    ensures j < |names| && names[j] == owners[k] && Fold(names[j]) == keys[k]
  {
    hide Fold;
    assert owners[k] in names;
    j :| j < |names| && names[j] == owners[k];
  }

  lemma ClaimsPairs(
    keys: seq<string>, owners: seq<string>, names: seq<string>, name: string,
    keys1: seq<string>, owners1: seq<string>, n: nat)
    requires Claims(keys, owners, names) && n <= |keys|
    requires keys1 == keys[..n] + [Fold(name)] + keys[n..] && owners1 == owners[..n] + [name] + owners[n..]
    ensures |keys1| == |owners1|
    ensures forall k | 0 <= k < |keys1| :: owners1[k] in names + [name] && keys1[k] == Fold(owners1[k])
  {
    hide Fold;
  }

  lemma ClaimsNext(
    keys: seq<string>, owners: seq<string>, names: seq<string>, name: string, keys1: seq<string>, owners1: seq<string>)
    requires Claims(keys, owners, names)
    requires InsertedInto(keys, owners, Fold(name), name, keys1, owners1)
    ensures Claims(keys1, owners1, names + [name])
  {
    hide Fold;
    var n: nat :| n <= |keys| && n <= |owners|
      && keys1 == keys[..n] + [Fold(name)] + keys[n..] && owners1 == owners[..n] + [name] + owners[n..];
    ClaimsPairs(keys, owners, names, name, keys1, owners1, n);
    forall x | x in names + [name] ensures Fold(x) in keys1 {
      if x in names {
        assert Fold(x) in keys;
        assert keys == keys[..n] + keys[n..];
      } else {
        assert keys1[n] == Fold(name);
      }
    }
  }
}
