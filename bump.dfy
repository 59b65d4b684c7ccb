/** The version arithmetic of SetNewVersion (changelog.go:126-131,
    main.go:400-405): split on ".", add one to the part at index `mode`,
    join again. Nothing resets the parts after it. */
module Bump {
  import opened Text
  import opened Numbers
  import opened Header

  /** The iota constants naming the parts of a version (changelog.go:19-23). */
  const MainVer: nat := 0
  const SubVer: nat := 1
  const StageVer: nat := 2

  /** The part at `mode` after the bump: strconv.Itoa(n + 1) where n is
      strconv.Atoi of the old part, a syntax error counting as 0. */
  function BumpedPart(part: string): string
  {
    Itoa(Increment(Atoi(part)))
  }

  /** The new version SetNewVersion computes from `ver`. Indexing `strs[mode]`
      panics when `ver` has no part `mode`, hence the precondition. */
  function BumpVersion(ver: string, mode: nat): string
    requires mode < |Split(ver)|
  {
    var parts := Split(ver);
    Join(parts[mode := BumpedPart(parts[mode])])
  }

  /** The bumped version has as many parts as `ver`; part `mode` is the
      incremented number and every other part is exactly as it was. */
  lemma BumpKeepsOtherParts(ver: string, mode: nat)
    requires mode < |Split(ver)|
    ensures Split(BumpVersion(ver, mode)) == Split(ver)[mode := BumpedPart(Split(ver)[mode])]
    ensures |Split(BumpVersion(ver, mode))| == |Split(ver)|
    ensures forall i :: 0 <= i < |Split(ver)| && i != mode ==> Split(BumpVersion(ver, mode))[i] == Split(ver)[i]
  {
    var parts := Split(ver)[mode := BumpedPart(Split(ver)[mode])];
    ItoaChars(Increment(Atoi(Split(ver)[mode])));
    SplitJoin(parts);
  }

  /** A numeric part below the 64-bit maximum goes up by one; the others are
      left alone. The lower parts are not reset. */
  lemma BumpTriple(major: nat, minor: nat, patch: nat, mode: nat)
    requires mode <= StageVer
    requires mode == MainVer ==> major < MaxInt64
    requires mode == SubVer ==> minor < MaxInt64
    requires mode == StageVer ==> patch < MaxInt64
    ensures |Split(FormatVersion(major, minor, patch))| == 3
    ensures BumpVersion(FormatVersion(major, minor, patch), mode) ==
      FormatVersion(if mode == MainVer then major + 1 else major,
                    if mode == SubVer then minor + 1 else minor,
                    if mode == StageVer then patch + 1 else patch)
  {
    var x, y, z := Itoa(major), Itoa(minor), Itoa(patch);
    ItoaChars(major); ItoaChars(minor); ItoaChars(patch);
    Join3(x, y, z);
    SplitJoin([x, y, z]);
    var parts := [x, y, z];
    if mode == MainVer {
      AtoiOfItoa(major);
    } else if mode == SubVer {
      AtoiOfItoa(minor);
    } else {
      AtoiOfItoa(patch);
    }
    assert parts[mode := BumpedPart(parts[mode])] == [
      if mode == MainVer then Itoa(major + 1) else x,
      if mode == SubVer then Itoa(minor + 1) else y,
      if mode == StageVer then Itoa(patch + 1) else z];
    Join3(if mode == MainVer then Itoa(major + 1) else x,
          if mode == SubVer then Itoa(minor + 1) else y,
          if mode == StageVer then Itoa(patch + 1) else z);
  }

  lemma Join3(x: string, y: string, z: string)
    ensures Join([x, y, z]) == x + "." + y + "." + z
  {
    assert Join([x, y, z]) == x + "." + Join([y, z]);
    assert Join([y, z]) == y + "." + z;
  }

  /** A part Atoi rejects with a syntax error becomes "1": one with no
      digits after its sign, or one where a non-digit comes before the
      digits exceed 2^64-1. */
  lemma BumpNonNumeric(ver: string, mode: nat)
    requires mode < |Split(ver)|
    requires SyntaxErrorIn(Split(ver)[mode])
    ensures Split(BumpVersion(ver, mode)) == Split(ver)[mode := "1"]
  {
    BumpKeepsOtherParts(ver, mode);
    AtoiByPrefix(Split(ver)[mode]);
  }

  /** A part whose leading digits exceed 2^64-1 is read as the largest
      64-bit value whatever follows them, so it wraps round to the smallest;
      with a minus sign it is read as the smallest and goes up by one. */
  lemma BumpOverflow(ver: string, mode: nat)
    requires mode < |Split(ver)|
    requires DecimalFrom(0, DigitPrefix(Unsigned(Split(ver)[mode]))) > MaxUint64
    ensures Split(ver)[mode][0] != '-' ==> Split(BumpVersion(ver, mode)) == Split(ver)[mode := Itoa(MinInt64)]
    ensures Split(ver)[mode][0] == '-' ==> Split(BumpVersion(ver, mode)) == Split(ver)[mode := Itoa(MinInt64 + 1)]
  {
    BumpKeepsOtherParts(ver, mode);
    AtoiByPrefix(Split(ver)[mode]);
  }

  /** The largest 64-bit part wraps round to the smallest, as `n++` does in Go. */
  lemma BumpWraps(ver: string, mode: nat)
    requires mode < |Split(ver)|
    requires Atoi(Split(ver)[mode]) == MaxInt64
    ensures Split(BumpVersion(ver, mode)) == Split(ver)[mode := Itoa(MinInt64)]
  {
    BumpKeepsOtherParts(ver, mode);
  }

  /** The bump brings in no character but digits, a minus sign and the dots
      already there. */
  lemma BumpChars(ver: string, mode: nat, c: char)
    requires mode < |Split(ver)|
    requires c !in ver && c != '.' && c != '-' && !IsDigit(c)
    ensures c !in BumpVersion(ver, mode)
  {
    var parts := Split(ver);
    SplitChars(ver, c);
    var n := Increment(Atoi(parts[mode]));
    ItoaShape(n);
    assert c !in Itoa(n);
    JoinChars(parts[mode := BumpedPart(parts[mode])], c);
  }
}
