// Python's notion of white space, as `str.strip` removes it.
module WhiteSpace {
  // The characters `str.strip` removes.
  predicate IsSpace(c: char) {
    var v := c as int;
    || 0x09 <= v <= 0x0D || 0x1C <= v <= 0x20 || v == 0x85 || v == 0xA0 || v == 0x1680
    || 0x2000 <= v <= 0x200A || v == 0x2028 || v == 0x2029 || v == 0x202F || v == 0x205F
    || v == 0x3000
  }

  // These 29 characters, one by one.
  lemma SpacesAreTheseTwentyNine(c: char)
    ensures IsSpace(c) <==>
              c as int in {9, 10, 11, 12, 13, 28, 29, 30, 31, 32, 133, 160, 5760, 8192, 8193, 8194, 8195, 8196,
                           8197, 8198, 8199, 8200, 8201, 8202, 8232, 8233, 8239, 8287, 12288}
  {
  }

  function LeftStrip(s: string): string {
    if s != [] && IsSpace(s[0]) then LeftStrip(s[1..]) else s
  }

  function RightStrip(s: string): string {
    if s != [] && IsSpace(s[|s| - 1]) then RightStrip(s[..|s| - 1]) else s
  }

  function Strip(s: string): string {
    RightStrip(LeftStrip(s))
  }

  // `r` is what is left of `s` when white space is taken from both ends: a slice outside
  // of which there is only white space, and which neither begins nor ends with any.
  ghost predicate Trims(s: string, r: string) {
    exists i: nat, j: nat :: SlicedAt(s, r, i, j)
  }

  ghost predicate SlicedAt(s: string, r: string, i: nat, j: nat) {
    && i <= j <= |s| && r == s[i..j]
    && (forall k | 0 <= k < i || j <= k < |s| :: IsSpace(s[k]))
    && (r != "" ==> !IsSpace(r[0]) && !IsSpace(r[|r| - 1]))
  }

  // The same at the right end only.
  ghost predicate TrimsRight(s: string, r: string) {
    && r <= s && (forall k | |r| <= k < |s| :: IsSpace(s[k]))
    && (r != "" ==> !IsSpace(r[|r| - 1]))
  }

  lemma {:induction false} LeftStripTrims(s: string)
    ensures var r := LeftStrip(s);
            && |r| <= |s| && r == s[|s| - |r|..] && (r != "" ==> !IsSpace(r[0]))
            && forall k | 0 <= k < |s| - |r| :: IsSpace(s[k])
  {
    if s != [] && IsSpace(s[0]) {
      var t := s[1..];
      var r := LeftStrip(t);
      LeftStripTrims(t);
      assert s[|s| - |r|..] == t[|t| - |r|..];
      forall k | 0 <= k < |s| - |r| ensures IsSpace(s[k]) {
        assert k > 0 ==> s[k] == t[k - 1];
      }
    }
  }

  lemma {:induction false} RightStripTrims(s: string)
    ensures TrimsRight(s, RightStrip(s))
  {
    if s != [] && IsSpace(s[|s| - 1]) {
      RightStripTrims(s[..|s| - 1]);
    }
  }

  lemma StripTrims(s: string)
    ensures Trims(s, Strip(s))
  {
    var l := LeftStrip(s);
    LeftStripTrims(s);
    RightStripTrims(l);
    var r, i := Strip(s), |s| - |l|;
    var j := i + |r|;
    assert r == l[..|r|] == s[i..j];
    assert r != "" ==> r[0] == l[0];
    forall k | 0 <= k < i || j <= k < |s| ensures IsSpace(s[k]) {
      if j <= k {
        assert s[k] == l[k - i];
      }
    }
    assert SlicedAt(s, r, i, j);
  }

  // There is only one such text.
  lemma TrimIsUnique(s: string, a: string, b: string)
    requires Trims(s, a) && Trims(s, b)
    ensures a == b
  {
    var i: nat, j: nat :| SlicedAt(s, a, i, j);
    var m: nat, n: nat :| SlicedAt(s, b, m, n);
    SliceIsUnique(s, a, i, j, b, m, n);
  }

  lemma SliceIsUnique(s: string, a: string, i: nat, j: nat, b: string, m: nat, n: nat)
    requires SlicedAt(s, a, i, j) && SlicedAt(s, b, m, n)
    ensures a == b
  {
    assert |a| > 0 ==> a[0] == s[i] && a[|a| - 1] == s[j - 1];
    assert |b| > 0 ==> b[0] == s[m] && b[|b| - 1] == s[n - 1];
    assert |a| > 0 ==> m <= i < j <= n;
    assert |b| > 0 ==> i <= m < n <= j;
  }

  lemma RightTrimIsUnique(s: string, a: string, b: string)
    requires TrimsRight(s, a) && TrimsRight(s, b)
    ensures a == b
  {
    assert a != "" ==> a[|a| - 1] == s[|a| - 1];
    assert b != "" ==> b[|b| - 1] == s[|b| - 1];
    assert |a| == |b|;
  }

  // A text is blank exactly when nothing of it is left.
  lemma StripIsEmptyExactlyWhenBlank(s: string)
    ensures Strip(s) == "" <==> forall k | 0 <= k < |s| :: IsSpace(s[k])
  {
    StripTrims(s);
    TrimmedIsEmptyExactlyWhenBlank(s, Strip(s));
  }

  lemma TrimmedIsEmptyExactlyWhenBlank(s: string, r: string)
    requires Trims(s, r)
    ensures r == "" <==> forall k | 0 <= k < |s| :: IsSpace(s[k])
  {
    var i: nat, j: nat :| SlicedAt(s, r, i, j);
    assert |r| > 0 ==> r[0] == s[i];
  }
}
