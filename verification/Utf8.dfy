// UTF-8 (section 3 of RFC 3629): the encoder, the error-ignoring decoder that
// `bytes.decode("utf-8", errors="ignore")` is, and the incremental decoder that
// a browser's streaming TextDecoder is on well-formed input.
module Utf8 {
  import opened Prelude

  function EncodeChar(c: char): (b: Bytes)
    ensures 1 <= |b| <= 4
  {
    var v := c as int;
    if v < 0x80 then [v]
    else if v < 0x800 then [0xC0 + v / 64, 0x80 + v % 64]
    else if v < 0x10000 then [0xE0 + v / 4096, 0x80 + v / 64 % 64, 0x80 + v % 64]
    else [0xF0 + v / 262144, 0x80 + v / 4096 % 64, 0x80 + v / 64 % 64, 0x80 + v % 64]
  }

  function Encode(s: string): Bytes {
    if s == [] then [] else EncodeChar(s[0]) + Encode(s[1..])
  }

  // The code point that the lead byte's length class would give, or -1.
  function CodePoint(b: Bytes): int
    requires b != []
  {
    var lead: int := b[0];
    if lead < 0x80 then lead
    else if 0xC0 <= lead < 0xE0 && |b| >= 2 then (lead - 0xC0) * 64 + Low(b[1])
    else if 0xE0 <= lead < 0xF0 && |b| >= 3 then
      (lead - 0xE0) * 4096 + Low(b[1]) * 64 + Low(b[2])
    else if 0xF0 <= lead < 0xF8 && |b| >= 4 then
      (lead - 0xF0) * 262144 + Low(b[1]) * 4096 + Low(b[2]) * 64 + Low(b[3])
    else -1
  }

  function Low(continuation: int): int {
    continuation - 0x80
  }

  // The character whose encoding starts `b`, if there is one. Comparing with the
  // re-encoded candidate rules out overlong forms, surrogates and stray bytes.
  function DecodeOne(b: Bytes): (r: Option<char>)
    ensures r.Some? ==> EncodeChar(r.value) <= b
  {
    if b == [] then None
    else
      var v := CodePoint(b);
      if (0 <= v < 0xD800 || 0xE000 <= v < 0x110000) && EncodeChar(v as char) <= b
      then Some(v as char) else None
  }

  // Decoding with errors ignored: bytes that start no well-formed sequence are dropped.
  function DecodeIgnore(b: Bytes): string
    decreases |b|
  {
    if b == [] then []
    else match DecodeOne(b)
      case Some(c) => [c] + DecodeIgnore(b[|EncodeChar(c)|..])
      case None => DecodeIgnore(b[1..])
  }

  // How many characters of `s` have their encoding wholly inside the first `k` bytes.
  function CharsWithin(s: string, k: nat): (n: nat)
    ensures n <= |s|
  {
    if s == [] || k < |EncodeChar(s[0])| then 0
    else 1 + CharsWithin(s[1..], k - |EncodeChar(s[0])|)
  }

  // Base-64 digits of a code point recombine to it.
  lemma DigitsRecombine(v: nat)
    ensures v / 64 * 64 + v % 64 == v
    ensures v / 4096 * 4096 + v / 64 % 64 * 64 + v % 64 == v
    ensures v / 262144 * 262144 + v / 4096 % 64 * 4096 + v / 64 % 64 * 64 + v % 64 == v
  {
    var a := v / 64;
    var b := a / 64;
    assert v / 4096 == b;
    assert v / 262144 == b / 64;
    assert v == 64 * a + v % 64 && a == 64 * b + a % 64 && b == 64 * (b / 64) + b % 64;
  }

  lemma CodePointInverts(c: char, b: Bytes)
    requires EncodeChar(c) <= b
    ensures CodePoint(b) == c as int
  {
    var e := EncodeChar(c);
    assert b[0] == e[0];
    assert forall i | 0 <= i < |e| :: b[i] == e[i];
    DigitsRecombine(c as int);
  }

  lemma DecodeOneInverts(c: char, rest: Bytes)
    ensures DecodeOne(EncodeChar(c) + rest) == Some(c)
  {
    assert EncodeChar(c) <= EncodeChar(c) + rest;
    CodePointInverts(c, EncodeChar(c) + rest);
  }

  // No character's encoding is a strict prefix of another's: the lead byte fixes the length.
  lemma LeadFixesLength(c: char, d: char)
    requires EncodeChar(c)[0] == EncodeChar(d)[0]
    ensures |EncodeChar(c)| == |EncodeChar(d)|
  {
  }

  lemma TruncatedCharIsNotDecodable(c: char, k: nat)
    requires k < |EncodeChar(c)|
    ensures DecodeOne(EncodeChar(c)[..k]) == None
  {
    var b := EncodeChar(c)[..k];
    if DecodeOne(b).Some? {
      var d := DecodeOne(b).value;
      assert EncodeChar(d)[0] == b[0] == EncodeChar(c)[0];
      LeadFixesLength(c, d);
    }
  }

  predicate IsContinuation(x: Byte) {
    0x80 <= x < 0xC0
  }

  lemma {:induction false} ContinuationsAreIgnored(b: Bytes)
    requires forall i | 0 <= i < |b| :: IsContinuation(b[i])
    ensures DecodeIgnore(b) == ""
  {
    if b != [] {
      if DecodeOne(b).Some? {
        assert false;
      }
      ContinuationsAreIgnored(b[1..]);
    }
  }

  lemma TruncatedCharIsIgnored(c: char, k: nat)
    requires k < |EncodeChar(c)|
    ensures DecodeIgnore(EncodeChar(c)[..k]) == ""
  {
    TruncatedCharIsNotDecodable(c, k);
    var b := EncodeChar(c)[..k];
    if b != [] {
      assert forall i | 1 <= i < |EncodeChar(c)| :: IsContinuation(EncodeChar(c)[i]);
      ContinuationsAreIgnored(b[1..]);
    }
  }

  lemma DecodeIgnoreStep(c: char, rest: Bytes)
    ensures DecodeIgnore(EncodeChar(c) + rest) == [c] + DecodeIgnore(rest)
  {
    DecodeOneInverts(c, rest);
    assert (EncodeChar(c) + rest)[|EncodeChar(c)|..] == rest;
  }

  // Exactly the bytes that begin no character's encoding cannot be decoded.
  lemma DecodeOneMeans(b: Bytes)
    ensures DecodeOne(b).None? <==> forall c: char :: !(EncodeChar(c) <= b)
  {
    if DecodeOne(b).None? {
      forall c: char ensures !(EncodeChar(c) <= b) {
        if EncodeChar(c) <= b {
          CodePointInverts(c, b);
        }
      }
    }
  }

  // A byte with which no character begins is dropped, wherever it stands, and only it.
  lemma {:induction false} StrayByteIsDropped(s: string, b: Bytes)
    requires b != [] && DecodeOne(b).None?
    ensures DecodeIgnore(Encode(s) + b) == s + DecodeIgnore(b[1..])
  {
    if s == "" {
      assert Encode(s) + b == b;
    } else {
      var rest := Encode(s[1..]) + b;
      StrayByteIsDropped(s[1..], b);
      AppendAssociates(EncodeChar(s[0]), Encode(s[1..]), b);
      DecodeIgnoreStep(s[0], rest);
      AppendAssociates([s[0]], s[1..], DecodeIgnore(b[1..]));
      assert s == [s[0]] + s[1..];
    }
  }

  // Cutting an encoded text anywhere and decoding what is left, errors ignored,
  // gives exactly the characters that were not cut.
  lemma {:induction false} DecodeIgnoreOfPrefix(s: string, k: nat)
    requires k <= |Encode(s)|
    ensures DecodeIgnore(Encode(s)[..k]) == s[..CharsWithin(s, k)]
    decreases |s|
  {
    if s == [] {
    } else {
      var e, others := EncodeChar(s[0]), Encode(s[1..]);
      CutOfAppend(e, others, k);
      if k < |e| {
        TruncatedCharIsIgnored(s[0], k);
      } else {
        DecodeIgnoreStep(s[0], others[..k - |e|]);
        DecodeIgnoreOfPrefix(s[1..], k - |e|);
        PrefixCons(s, CharsWithin(s[1..], k - |e|));
      }
    }
  }

  lemma PrefixCons(s: string, n: nat)
    requires n < |s|
    ensures s[..n + 1] == [s[0]] + s[1..][..n]
  {
  }

  // CharsWithin is the longest such prefix: it fits, and the next character would not.
  lemma {:induction false} CharsWithinIsLongest(s: string, k: nat)
    ensures |Encode(s[..CharsWithin(s, k)])| <= k
    ensures forall j | CharsWithin(s, k) < j <= |s| :: |Encode(s[..j])| > k
    decreases |s|
  {
    if s != [] {
      var e := EncodeChar(s[0]);
      forall j | 1 <= j <= |s|
        ensures |Encode(s[..j])| == |e| + |Encode(s[1..][..j - 1])|
      {
        assert s[..j][1..] == s[1..][..j - 1];
      }
      if k >= |e| {
        CharsWithinIsLongest(s[1..], k - |e|);
        var n := CharsWithin(s, k);
        assert |Encode(s[..n])| <= k;
        forall j | n < j <= |s| ensures |Encode(s[..j])| > k {
          assert |Encode(s[1..][..j - 1])| > k - |e|;
        }
      }
    }
  }

  lemma {:induction false} EncodePrefixLength(s: string, i: nat, j: nat)
    requires i <= j <= |s|
    ensures |Encode(s[..i])| + (j - i) <= |Encode(s[..j])|
    decreases i, j
  {
    if i > 0 {
      assert s[..i][1..] == s[1..][..i - 1] && s[..j][1..] == s[1..][..j - 1];
      EncodePrefixLength(s[1..], i - 1, j - 1);
    } else if j > 0 {
      assert s[..j][1..] == s[1..][..j - 1];
      EncodePrefixLength(s[1..], 0, j - 1);
    }
  }

  lemma {:induction false} EncodeAppend(s: string, t: string)
    ensures Encode(s + t) == Encode(s) + Encode(t)
  {
    if s == [] {
      assert s + t == t;
    } else {
      assert (s + t)[0] == s[0] && (s + t)[1..] == s[1..] + t;
      EncodeAppend(s[1..], t);
    }
  }

  // The incremental decoder: the complete characters at the front, and the bytes
  // kept for the next chunk because they do not yet form a character.
  datatype Decoded = Decoded(text: string, pending: Bytes)

  function DecodeAvailable(b: Bytes): Decoded
    decreases |b|
  {
    match DecodeOne(b)
    case None => Decoded("", b)
    case Some(c) =>
      var rest := DecodeAvailable(b[|EncodeChar(c)|..]);
      Decoded([c] + rest.text, rest.pending)
  }

  lemma DecodeAvailableStep(c: char, rest: Bytes)
    ensures var r := DecodeAvailable(rest);
            DecodeAvailable(EncodeChar(c) + rest) == Decoded([c] + r.text, r.pending)
  {
    DecodeOneInverts(c, rest);
    assert (EncodeChar(c) + rest)[|EncodeChar(c)|..] == rest;
  }

  // What decoding the first k bytes of an encoded text gives: the whole characters, and
  // the bytes of the one that was cut.
  ghost predicate DecodesCut(s: string, k: nat)
    requires k <= |Encode(s)|
  {
    var whole := Encode(s[..CharsWithin(s, k)]);
    |whole| <= k &&
    DecodeAvailable(Encode(s)[..k]) == Decoded(s[..CharsWithin(s, k)], Encode(s)[|whole|..k])
  }

  lemma EncodePrefixCons(s: string, n: nat)
    requires n < |s|
    ensures Encode(s[..n + 1]) == EncodeChar(s[0]) + Encode(s[1..][..n])
  {
    assert s[..n + 1][1..] == s[1..][..n];
  }

  lemma DecodesCutCons(s: string, e: Bytes, others: Bytes, k: nat)
    requires s != [] && e == EncodeChar(s[0]) && others == Encode(s[1..]) && |e| <= k <= |e| + |others|
    requires DecodesCut(s[1..], k - |e|)
    ensures DecodesCut(s, k)
  {
    var n := CharsWithin(s[1..], k - |e|);
    var m := |Encode(s[1..][..n])|;
    assert Encode(s) == e + others && CharsWithin(s, k) == n + 1;
    assert |Encode(s[..n + 1])| == |e| + m by {
      EncodePrefixCons(s, n);
    }
    assert Encode(s)[|e| + m..k] == others[m..k - |e|] by {
      SliceOfAppend(e, others, m, k - |e|);
    }
    var rest := DecodeAvailable(others[..k - |e|]);
    assert DecodeAvailable(Encode(s)[..k]) == Decoded([s[0]] + rest.text, rest.pending) by {
      CutOfAppend(e, others, k);
      DecodeAvailableStep(s[0], others[..k - |e|]);
    }
    PrefixCons(s, n);
  }

  lemma {:induction false} DecodeAvailableOfPrefix(s: string, k: nat)
    requires k <= |Encode(s)|
    ensures DecodesCut(s, k)
    decreases |s|
  {
    if s == [] {
      assert Encode(s)[..k] == [];
    } else {
      var e, others := EncodeChar(s[0]), Encode(s[1..]);
      if k < |e| {
        CutOfAppend(e, others, k);
        TruncatedCharIsNotDecodable(s[0], k);
      } else {
        DecodeAvailableOfPrefix(s[1..], k - |e|);
        DecodesCutCons(s, e, others, k);
      }
    }
  }

  // Decoding what was kept from `a` followed by the next chunk continues the same text.
  ghost predicate Incremental(a: Bytes, b: Bytes) {
    var first := DecodeAvailable(a);
    var second := DecodeAvailable(first.pending + b);
    DecodeAvailable(a + b) == Decoded(first.text + second.text, second.pending)
  }

  lemma IncrementalCons(c: char, head: Bytes, a: Bytes, b: Bytes)
    requires head == EncodeChar(c) && head <= a
    requires Incremental(a[|head|..], b)
    ensures Incremental(a, b)
  {
    var rest := a[|head|..];
    Regroup(head, a, b);
    DecodeAvailableStep(c, rest);
    DecodeAvailableStep(c, rest + b);
    var first := DecodeAvailable(rest);
    var second := DecodeAvailable(first.pending + b);
    Regroup([c], [c] + first.text, second.text);
  }

  // The incremental decoder does not depend on how the bytes were cut.
  lemma {:induction false} DecodeAvailableIsIncremental(a: Bytes, b: Bytes)
    ensures Incremental(a, b)
    decreases |a|
  {
    match DecodeOne(a)
    case None =>
    case Some(c) =>
      DecodeAvailableIsIncremental(a[|EncodeChar(c)|..], b);
      IncrementalCons(c, EncodeChar(c), a, b);
  }
}
