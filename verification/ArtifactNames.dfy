/** What artifact names mean to a file system: which are accepted, and which two of
    them it could not hold side by side. */
module ArtifactNames {
  import opened ArtifactPaths

  /** The same character, or the same ASCII letter in the other case. */
  predicate SameLetter(c: char, d: char) {
    var x, y := c as int, d as int;
    x == y || (65 <= x <= 90 && y == x + 32) || (65 <= y <= 90 && x == y + 32)
  }

  ghost predicate SameUpToCase(s: string, t: string) {
    |s| == |t| && forall i | 0 <= i < |s| :: SameLetter(s[i], t[i])
  }

  lemma FoldCharIdentifies(c: char, d: char)
    ensures FoldChar(c) == FoldChar(d) <==> SameLetter(c, d)
  {
  }

  /** Folding identifies exactly the strings that differ in ASCII case only. */
  lemma FoldIdentifies(s: string, t: string)
    ensures Fold(s) == Fold(t) <==> SameUpToCase(s, t)
  {
    hide FoldChar, SameLetter;
    forall i | 0 <= i < |s| && i < |t|
      ensures Fold(s)[i] == Fold(t)[i] <==> SameLetter(s[i], t[i])
    {
      FoldCharIdentifies(s[i], t[i]);
    }
  }

  /** `y` lies in the directory `x`, up to case. */
  ghost predicate InDirectory(x: string, y: string) {
    |x| < |y| && y[|x|] == '/' && SameUpToCase(x, y[..|x|])
  }

  lemma FoldPrefix(s: string, n: nat)
    requires n < |s|
    ensures Fold(s)[..n] == Fold(s[..n]) && (Fold(s)[n] == '/' <==> s[n] == '/')
  {
  }

  lemma AncestorUpToCase(x: string, y: string)
    ensures Ancestor(Fold(x), Fold(y)) <==> InDirectory(x, y)
  {
    hide Ancestor, Fold, SameUpToCase;
    if |x| < |y| {
      AncestorAt(Fold(x), Fold(y));
      FoldPrefix(y, |x|);
      FoldIdentifies(x, y[..|x|]);
    } else {
      AncestorIsPrefix(Fold(x), Fold(y));
    }
  }

  /** Two names conflict exactly when they differ at most in ASCII case, or one lies
      in the other as a directory, up to case. */
  lemma ConflictsIff(x: string, y: string)
    ensures Conflicts(x, y) <==> SameUpToCase(x, y) || InDirectory(x, y) || InDirectory(y, x)
  {
    hide Ancestor, Fold, SameUpToCase;
    FoldIdentifies(x, y);
    AncestorUpToCase(x, y);
    AncestorUpToCase(y, x);
  }

  /** The names that Windows reserves, in any case. */
  ghost predicate NamesDevice(device: string) {
    || (exists name | name in ["CON", "PRN", "AUX", "NUL", "CONIN$", "CONOUT$"] :: SameUpToCase(device, name))
    || (|device| == 4
        && (SameUpToCase(device[..3], "COM") || SameUpToCase(device[..3], "LPT"))
        && device[3] in "123456789\U{B9}\U{B2}\U{B3}")
  }

  lemma DeviceIff(device: string)
    ensures IsDevice(device) <==> NamesDevice(device)
  {
    hide SameUpToCase, Fold;
    ReservedIff(device);
    if |device| == 4 {
      FoldedWords();
      FoldIdentifies(device[..3], "COM");
      FoldIdentifies(device[..3], "LPT");
      FoldNumber(device);
    }
    FoldLength(device);
  }

  lemma FoldLength(s: string)
    ensures |Fold(s)| == |s|
  {
  }

  lemma ReservedIff(device: string)
    ensures Fold(device) in ["con", "prn", "aux", "nul", "conin$", "conout$"] <==>
      exists name | name in ["CON", "PRN", "AUX", "NUL", "CONIN$", "CONOUT$"] :: SameUpToCase(device, name)
  {
    hide SameUpToCase, Fold;
    FoldedWords();
    var words := ["CON", "PRN", "AUX", "NUL", "CONIN$", "CONOUT$"];
    forall name | name in words ensures Fold(device) == Fold(name) <==> SameUpToCase(device, name) {
      FoldIdentifies(device, name);
    }
    assert words[0] in words && words[1] in words && words[2] in words;
    assert words[3] in words && words[4] in words && words[5] in words;
  }

  lemma FoldNumber(device: string)
    requires |device| == 4
    ensures Fold(device)[..3] == Fold(device[..3])
    ensures Fold(device)[3] in "123456789\U{B9}\U{B2}\U{B3}" <==> device[3] in "123456789\U{B9}\U{B2}\U{B3}"
  {
  }

  lemma FoldedWords()
    ensures Fold("CON") == "con" && Fold("PRN") == "prn" && Fold("AUX") == "aux" && Fold("NUL") == "nul"
    ensures Fold("CONIN$") == "conin$" && Fold("CONOUT$") == "conout$"
    ensures Fold("COM") == "com" && Fold("LPT") == "lpt"
  {
  }

  /** A character that a component may hold, by its code point. */
  ghost predicate Allowed(c: char) {
    var code := c as int;
    code >= 32 && !(127 <= code <= 159) && code !in {34, 42, 58, 60, 62, 63, 92, 124}
  }

  /** A device, perhaps with spaces and an extension behind it. */
  ghost predicate HidesDevice(part: string, device: string, n: nat) {
    NamesDevice(device)
    && (part == device + Spaces(n) || device + Spaces(n) + "." <= part)
  }

  lemma {:induction false} UntilDotIs(part: string)
    ensures '.' !in UntilDot(part)
    ensures part == UntilDot(part) || UntilDot(part) + "." <= part
  {
    if part != [] && part[0] != '.' {
      UntilDotIs(part[1..]);
      var rest := UntilDot(part[1..]);
      assert part == [part[0]] + part[1..];
      if rest + "." <= part[1..] {
        assert [part[0]] + (rest + ".") <= [part[0]] + part[1..];
        assert [part[0]] + (rest + ".") == UntilDot(part) + ".";
      }
    }
  }

  lemma {:induction false} TrimSpacesIs(s: string) returns (n: nat)
    ensures s == TrimSpaces(s) + Spaces(n)
  {
    if s != [] && s[|s| - 1] == ' ' {
      var m := TrimSpacesIs(s[..|s| - 1]);
      n := m + 1;
      assert s == s[..|s| - 1] + [' '];
      assert TrimSpaces(s) + Spaces(n) == TrimSpaces(s) + Spaces(m) + [' '];
    } else {
      n := 0;
      assert s == s + Spaces(0);
    }
  }

  lemma HiddenDeviceFound(part: string, device: string, n: nat)
    requires HidesDevice(part, device, n)
    ensures IsDevice(TrimSpaces(UntilDot(part)))
  {
    hide UntilDot, TrimSpaces, IsDevice, NamesDevice;
    DeviceIff(device);
    DeviceShape(device);
    var base := device + Spaces(n);
    var extension := if base + "." <= part then part[|base| + 1..] else "";
    UntilDotStops(base, extension);
    if base + "." <= part {
      assert part == base + "." + extension;
    }
    TrimSpacesStops(device, n);
  }

  lemma DeviceShape(device: string)
    requires IsDevice(device)
    ensures '.' !in device && (device == [] || device[|device| - 1] != ' ')
  {
    NoDotInDevice(device);
  }

  /** A component is accepted exactly when it is not empty, holds only allowed
      characters, ends in neither a dot nor a space, and hides no device name. */
  lemma PortableIff(part: string)
    ensures PortableComponent(part) <==>
      && part != ""
      && (forall i | 0 <= i < |part| :: Allowed(part[i]))
      && part[|part| - 1] != '.' && part[|part| - 1] != ' '
      && (forall device: string, n: nat :: !HidesDevice(part, device, n))
  {
    hide UntilDot, TrimSpaces, IsDevice, HidesDevice;
    forall i | 0 <= i < |part|
      ensures Allowed(part[i]) <==> !IsControl(part[i]) && part[i] !in "\\:<>\"|?*"
    {
      AllowedIs(part[i]);
    }
    forall device: string, n: nat | HidesDevice(part, device, n)
      ensures IsDevice(TrimSpaces(UntilDot(part)))
    {
      HiddenDeviceFound(part, device, n);
    }
    if IsDevice(TrimSpaces(UntilDot(part))) {
      var device, n := DeviceIsHidden(part);
    }
    hide Allowed, IsControl;
    assert (forall c | c in part :: !IsControl(c) && c !in "\\:<>\"|?*")
      <==> forall i | 0 <= i < |part| :: !IsControl(part[i]) && part[i] !in "\\:<>\"|?*";
  }

  lemma AllowedIs(c: char)
    ensures Allowed(c) <==> !IsControl(c) && c !in "\\:<>\"|?*"
  {
  }

  lemma DeviceIsHidden(part: string) returns (device: string, n: nat)
    requires IsDevice(TrimSpaces(UntilDot(part)))
    ensures HidesDevice(part, device, n)
  {
    hide UntilDot, TrimSpaces, IsDevice, NamesDevice;
    var base := UntilDot(part);
    device := TrimSpaces(base);
    UntilDotIs(part);
    n := TrimSpacesIs(base);
    DeviceIff(device);
  }

  /** The components of a path are its pieces between slashes, and nothing else. */
  lemma {:induction false} SplitHasNoSlash(path: string)
    ensures forall part | part in Split(path) :: '/' !in part
  {
    if path != [] {
      SplitHasNoSlash(path[1..]);
    }
  }

  lemma {:induction false} SplitWord(part: string)
    requires '/' !in part
    ensures Split(part) == [part]
  {
    if part != [] {
      SplitWord(part[1..]);
      assert part == [part[0]] + part[1..];
    }
  }

  lemma {:induction false} SplitIsPieces(parts: seq<string>)
    requires parts != [] && forall part | part in parts :: '/' !in part
    ensures Split(Join(parts)) == parts
  {
    hide Split;
    SplitWord(parts[0]);
    if |parts| > 1 {
      SplitIsPieces(parts[1..]);
      SplitConcat(parts[0], Join(parts[1..]));
    }
  }
}
