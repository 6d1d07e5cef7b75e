// Shared vocabulary of the models: optional values, results and byte strings.
module Prelude {
  datatype Option<+T> = None | Some(value: T)

  datatype Result<+T, +E> = Ok(value: T) | Err(error: E)

  type Byte = x: int | 0 <= x < 256

  type Bytes = seq<Byte>

  function Min(x: int, y: int): int {
    if x < y then x else y
  }

  function Max(x: int, y: int): int {
    if x < y then y else x
  }

  // The concatenation of all parts, as `b"".join(parts)` computes it.
  function Concat<T>(parts: seq<seq<T>>): seq<T> {
    if parts == [] then [] else parts[0] + Concat(parts[1..])
  }

  lemma {:induction false} ConcatAppend<T>(a: seq<seq<T>>, b: seq<seq<T>>)
    ensures Concat(a + b) == Concat(a) + Concat(b)
  {
    if a == [] {
      assert a + b == b;
    } else {
      assert (a + b)[0] == a[0] && (a + b)[1..] == a[1..] + b;
      ConcatAppend(a[1..], b);
    }
  }

  lemma AppendAssociates<T>(a: seq<T>, b: seq<T>, c: seq<T>)
    ensures (a + b) + c == a + (b + c)
  {
  }

  // Moving the tail of `a` over to `b` does not change `a + b`.
  lemma Regroup<T>(head: seq<T>, a: seq<T>, b: seq<T>)
    requires head <= a
    ensures a == head + a[|head|..]
    ensures a + b == head + (a[|head|..] + b)
  {
  }

  // A cut of `head + tail` falls into one of them.
  lemma CutOfAppend<T>(head: seq<T>, tail: seq<T>, k: nat)
    requires k <= |head| + |tail|
    ensures (head + tail)[..k] == if k < |head| then head[..k] else head + tail[..k - |head|]
  {
  }

  lemma SliceOfAppend<T>(head: seq<T>, tail: seq<T>, i: nat, j: nat)
    requires i <= j <= |tail|
    ensures (head + tail)[|head| + i..|head| + j] == tail[i..j]
  {
  }

  // `sep.join(parts)`.
  function Join(parts: seq<string>, sep: string): string {
    if parts == [] then ""
    else if |parts| == 1 then parts[0]
    else parts[0] + sep + Join(parts[1..], sep)
  }

  // The text consists of these parts, the i-th from starts[i] to ends[i], with the
  // separator between any two.
  ghost predicate JoinedAt(
      text: string, parts: seq<string>, sep: string, starts: seq<nat>, ends: seq<nat>)
  {
    && |starts| == |ends| == |parts|
    && (forall i | 0 <= i < |parts| :: PartAt(text, starts[i], ends[i], parts[i]))
    && (forall i | 0 < i < |parts| :: PartAt(text, ends[i - 1], starts[i], sep))
    && if parts == [] then text == "" else starts[0] == 0 && ends[|parts| - 1] == |text|
  }

  ghost predicate PartAt(text: string, from: nat, to: nat, part: string) {
    from <= to <= |text| && text[from..to] == part
  }

  function Shifted(first: nat, ps: seq<nat>, d: nat): (r: seq<nat>)
    ensures |r| == |ps| + 1 && r[0] == first
    ensures forall i | 0 < i < |r| :: r[i] == ps[i - 1] + d
  {
    [first] + seq(|ps|, i requires 0 <= i < |ps| => ps[i] + d)
  }

  lemma PartAtShifted(head: string, text: string, from: nat, to: nat, part: string)
    requires PartAt(text, from, to, part)
    ensures PartAt(head + text, from + |head|, to + |head|, part)
  {
    SliceOfAppend(head, text, from, to);
  }

  lemma {:induction false} JoinIsJoined(parts: seq<string>, sep: string)
    returns (starts: seq<nat>, ends: seq<nat>)
    ensures JoinedAt(Join(parts, sep), parts, sep, starts, ends)
  {
    if parts == [] {
      starts, ends := [], [];
    } else if |parts| == 1 {
      starts, ends := [0], [|parts[0]|];
      assert parts[0][0..|parts[0]|] == parts[0];
    } else {
      var s, e := JoinIsJoined(parts[1..], sep);
      starts, ends := JoinedCons(parts[0], parts[1..], sep, Join(parts[1..], sep), s, e);
      assert [parts[0]] + parts[1..] == parts;
    }
  }

  lemma JoinedCons(
      first: string, parts: seq<string>, sep: string, text: string, s: seq<nat>, e: seq<nat>)
    returns (starts: seq<nat>, ends: seq<nat>)
    requires parts != [] && JoinedAt(text, parts, sep, s, e)
    ensures JoinedAt(first + sep + text, [first] + parts, sep, starts, ends)
  {
    starts, ends := Shifted(0, s, |first + sep|), Shifted(|first|, e, |first + sep|);
    PartsCons(first, parts, sep, text, s, e, starts, ends);
    GapsCons(first, parts, sep, text, s, e, starts, ends);
  }

  lemma PartsCons(
      first: string, parts: seq<string>, sep: string, text: string, s: seq<nat>, e: seq<nat>,
      starts: seq<nat>, ends: seq<nat>)
    requires JoinedAt(text, parts, sep, s, e)
    requires starts == Shifted(0, s, |first + sep|) && ends == Shifted(|first|, e, |first + sep|)
    ensures forall i | 0 <= i < |[first] + parts| ::
              PartAt(first + sep + text, starts[i], ends[i], ([first] + parts)[i])
  {
    forall i | 0 <= i < |[first] + parts|
      ensures PartAt(first + sep + text, starts[i], ends[i], ([first] + parts)[i])
    {
      if i == 0 {
        PlacedFirst(first, sep, text, starts[i], ends[i]);
      } else {
        PlacedLater(first, sep, text, s[i - 1], e[i - 1], parts[i - 1], starts[i], ends[i]);
      }
    }
  }

  lemma GapsCons(
      first: string, parts: seq<string>, sep: string, text: string, s: seq<nat>, e: seq<nat>,
      starts: seq<nat>, ends: seq<nat>)
    requires JoinedAt(text, parts, sep, s, e)
    requires starts == Shifted(0, s, |first + sep|) && ends == Shifted(|first|, e, |first + sep|)
    ensures forall i | 0 < i < |[first] + parts| :: PartAt(first + sep + text, ends[i - 1], starts[i], sep)
  {
    forall i | 0 < i < |[first] + parts| ensures PartAt(first + sep + text, ends[i - 1], starts[i], sep) {
      if i == 1 {
        PlacedGap(first, sep, text, ends[0], starts[1]);
      } else {
        PlacedLater(first, sep, text, e[i - 2], s[i - 1], sep, ends[i - 1], starts[i]);
      }
    }
  }

  lemma PlacedFirst(first: string, sep: string, text: string, from: nat, to: nat)
    requires from == 0 && to == |first|
    ensures PartAt(first + sep + text, from, to, first)
  {
    AppendAssociates(first, sep, text);
    CutOfAppend(first, sep + text, to);
  }

  lemma PlacedGap(first: string, sep: string, text: string, from: nat, to: nat)
    requires from == |first| && to == |first + sep|
    ensures PartAt(first + sep + text, from, to, sep)
  {
    AppendAssociates(first, sep, text);
    CutOfAppend(sep, text, |sep|);
    SliceOfAppend(first, sep + text, 0, |sep|);
  }

  lemma PlacedLater(
      first: string, sep: string, text: string, p: nat, q: nat, part: string, from: nat, to: nat)
    requires PartAt(text, p, q, part) && from == p + |first + sep| && to == q + |first + sep|
    ensures PartAt(first + sep + text, from, to, part)
  {
    PartAtShifted(first + sep, text, p, q, part);
  }

  // The parts and the separator determine the text.
  lemma JoinedIsUnique(
      a: string, b: string, parts: seq<string>, sep: string,
      s1: seq<nat>, e1: seq<nat>, s2: seq<nat>, e2: seq<nat>)
    requires JoinedAt(a, parts, sep, s1, e1) && JoinedAt(b, parts, sep, s2, e2)
    ensures a == b
  {
    if parts != [] {
      JoinedPrefixIsUnique(a, b, parts, sep, s1, e1, s2, e2, |parts| - 1);
      assert a[..|a|] == a && b[..|b|] == b;
    }
  }

  lemma {:induction false} JoinedPrefixIsUnique(
      a: string, b: string, parts: seq<string>, sep: string,
      s1: seq<nat>, e1: seq<nat>, s2: seq<nat>, e2: seq<nat>, i: nat)
    requires JoinedAt(a, parts, sep, s1, e1) && JoinedAt(b, parts, sep, s2, e2) && i < |parts|
    ensures e1[i] == e2[i] <= |a| && e2[i] <= |b| && a[..e1[i]] == b[..e2[i]]
  {
    var from: nat := if i == 0 then 0 else s1[i];
    if i > 0 {
      JoinedPrefixIsUnique(a, b, parts, sep, s1, e1, s2, e2, i - 1);
      assert PartAt(a, e1[i - 1], s1[i], sep) && PartAt(b, e2[i - 1], s2[i], sep);
      PrefixExtends(a, b, e1[i - 1], s1[i], s2[i], sep);
    }
    assert s1[i] == s2[i] == from;
    assert PartAt(a, s1[i], e1[i], parts[i]) && PartAt(b, s2[i], e2[i], parts[i]);
    PrefixExtends(a, b, from, e1[i], e2[i], parts[i]);
  }

  lemma PrefixExtends(a: string, b: string, from: nat, to: nat, end: nat, part: string)
    requires PartAt(a, from, to, part) && PartAt(b, from, end, part) && a[..from] == b[..from]
    ensures to == end && a[..to] == b[..to]
  {
    assert a[..to] == a[..from] + part && b[..end] == b[..from] + part;
  }
}
