/**
 The in-place CRLF compaction of `crates/caffeine-ls/src/line_index.rs`, against
 the left-to-right replacement of each "\r\n" by "\n".
 */
module LineEndings {
  import opened Bytes

  const CR: byte := 13
  const LF: byte := 10

  datatype Endings = Unix | Dos

  // ----- specification

  predicate CrlfAt(s: seq<byte>, i: int) {
    0 <= i < |s| - 1 && s[i] == CR && s[i + 1] == LF
  }

  predicate HasCrlf(s: seq<byte>) {
    exists i | 0 <= i < |s| - 1 :: CrlfAt(s, i)
  }

  /** Each "\r\n" becomes "\n"; every other byte stays. */
  function Normalized(s: seq<byte>): (r: seq<byte>)
    ensures |r| <= |s|
  {
    if s == [] then []
    else if CrlfAt(s, 0) then [LF] + Normalized(s[2..])
    else [s[0]] + Normalized(s[1..])
  }

  /** The way out: every "\n" becomes "\r\n". */
  function Expanded(s: seq<byte>): seq<byte> {
    if s == [] then []
    else (if s[0] == LF then [CR, LF] else [s[0]]) + Expanded(s[1..])
  }

  function CountCrlf(s: seq<byte>): nat {
    if s == [] then 0
    else (if CrlfAt(s, 0) then 1 else 0) + CountCrlf(s[1..])
  }

  // ----- the algorithm

  /** The position of the first match at or after `from`, `a.Length` if there is none. */
  method Find(a: array<byte>, from: nat, ghost text: seq<byte>) returns (idx: nat)
    requires from <= a.Length == |text| && a[from..] == text[from..]
    ensures from <= idx <= a.Length
    ensures idx < a.Length ==> CrlfAt(text, idx)
    ensures forall i | from <= i < idx :: !CrlfAt(text, i)
  {
    idx := from;
    while idx < a.Length && !(idx + 1 < a.Length && a[idx] == CR && a[idx + 1] == LF)
      invariant from <= idx <= a.Length
      invariant forall i | from <= i < idx :: !CrlfAt(a[..], i)
    {
      idx := idx + 1;
    }
    MatchesFromSuffix(a[..], text, from, idx);
  }

  /** Moves `n` bytes from `src` down to `dst`, lowest first. */
  method CopyWithin(a: array<byte>, src: nat, dst: nat, n: nat)
    requires dst <= src && src + n <= a.Length
    modifies a
    ensures a[..dst] == old(a[..dst])
    ensures a[dst..dst + n] == old(a[src..src + n])
    ensures a[src + n..] == old(a[src + n..])
  {
    for i := 0 to n
      invariant a[..dst] == old(a[..dst])
      invariant a[dst..dst + i] == old(a[src..src + i])
      invariant a[src + i..] == old(a[src + i..])
    {
      ghost var before := a[src + i..];
      assert a[src + i] == before[0];
      a[dst + i] := a[src + i];
      assert a[src + i + 1..] == before[1..];
      assert old(a[src..src + i + 1]) == old(a[src..src + i]) + [old(a[src + i])];
      assert a[dst..dst + i + 1] == a[dst..dst + i] + [a[dst + i]];
    }
  }

  /** One copy of the compaction, seen from the text it started with. */
  method ShiftDown(a: array<byte>, from: nat, base: nat, idx: nat, ghost done: seq<byte>, ghost text: seq<byte>)
    requires base <= from <= idx <= a.Length == |text|
    requires a[..base] == done && a[from..] == text[from..]
    modifies a
    ensures a[..base + (idx - from)] == done + text[from..idx]
    ensures idx < a.Length ==> a[idx + 1..] == text[idx + 1..]
  {
    SliceOfSuffix(a[..], text, from, idx);
    if idx < a.Length {
      SliceOfSuffix(a[..], text, from, idx + 1);
    }
    CopyWithin(a, from, base, idx - from);
    SliceOfSuffix(a[..], text, idx, if idx < a.Length then idx + 1 else idx);
    Join(a[..], done, text[from..idx]);
  }

  /**
   Compacts `a` in place and returns the length of the text left at its front.
   `base` is where the source's shrinking `tail` slice begins, `from` where it is searched.
   */
  method Normalize(a: array<byte>) returns (newLen: nat, endings: Endings)
    modifies a
    ensures newLen <= a.Length && a[..newLen] == Normalized(old(a[..]))
    ensures newLen == a.Length - CountCrlf(old(a[..]))
    ensures endings == Dos <==> HasCrlf(old(a[..]))
  {
    ghost var text := a[..];
    var gap: nat := 0;
    var base: nat := 0;
    var crlfSeen := false;
    ghost var done: seq<byte> := [];
    var from: nat := 0;
    assert text[0..] == text;
    while true
      invariant from == base + gap <= a.Length
      invariant gap > 0 ==> from < a.Length
      invariant crlfSeen <==> gap > 0
      invariant !crlfSeen ==> base == 0
      invariant a[..base] == done && a[from..] == text[from..]
      invariant Progress(done, text, from, gap)
      decreases a.Length - from
    {
      var idx := Find(a, from, text);
      if idx == a.Length && !crlfSeen {
        NoMatchNormalizes(text);
        assert a[..] == a[0..] && text == text[0..];
        return a.Length, Unix;
      }
      Advance(done, text, from, idx, gap);
      ShiftDown(a, from, base, idx, done, text);
      done := done + text[from..idx];
      base := idx - gap;
      if idx == a.Length {
        break;
      }
      crlfSeen := true;
      gap := gap + 1;
      from := idx + 1;
    }
    CountPositiveIff(text);
    newLen, endings := a.Length - gap, Dos;
  }

  // ----- steps of the proof

  /** With `done` final, what is left to do starts at `from`. */
  ghost predicate Progress(done: seq<byte>, text: seq<byte>, from: nat, gap: nat)
    requires from <= |text|
  {
    && done + Normalized(text[from..]) == Normalized(text)
    && gap + CountCrlf(text[from..]) == CountCrlf(text)
  }

  /** Copying the bytes up to the next match, or to the end, keeps the front final. */
  lemma Advance(done: seq<byte>, text: seq<byte>, from: nat, idx: nat, gap: nat)
    requires from <= idx <= |text| && Progress(done, text, from, gap)
    requires forall i | from <= i < idx :: !CrlfAt(text, i)
    requires idx < |text| ==> CrlfAt(text, idx)
    ensures idx < |text| ==> Progress(done + text[from..idx], text, idx + 1, gap + 1)
    ensures idx == |text| ==> done + text[from..idx] == Normalized(text) && gap == CountCrlf(text)
  {
    NormalizedSkips(text, from, idx);
    assert done + (text[from..idx] + Normalized(text[idx..])) == (done + text[from..idx]) + Normalized(text[idx..]);
    if idx < |text| {
      NormalizedAtMatch(text, idx);
    }
  }

  lemma Join(now: seq<byte>, done: seq<byte>, mid: seq<byte>)
    requires |done| + |mid| <= |now|
    requires now[..|done|] == done && now[|done|..|done| + |mid|] == mid
    ensures now[..|done| + |mid|] == done + mid
  {
    assert now[..|done| + |mid|] == now[..|done|] + now[|done|..|done| + |mid|];
  }

  lemma SliceOfSuffix(now: seq<byte>, text: seq<byte>, from: nat, idx: nat)
    requires |now| == |text| && from <= idx <= |text| && now[from..] == text[from..]
    ensures now[from..idx] == text[from..idx] && now[idx..] == text[idx..]
  {
    assert now[from..idx] == now[from..][..idx - from] && text[from..idx] == text[from..][..idx - from];
    assert now[idx..] == now[from..][idx - from..] && text[idx..] == text[from..][idx - from..];
  }

  lemma MatchesFromSuffix(now: seq<byte>, text: seq<byte>, from: nat, idx: nat)
    requires |now| == |text| && from <= idx <= |text| && now[from..] == text[from..]
    requires forall i | from <= i < idx :: !CrlfAt(now, i)
    requires idx < |text| ==> CrlfAt(now, idx)
    ensures forall i | from <= i < idx :: !CrlfAt(text, i)
    ensures idx < |text| ==> CrlfAt(text, idx)
  {
    forall i | from <= i < |text| ensures now[i] == text[i] {
      assert now[from..][i - from] == text[from..][i - from];
    }
    forall i | from <= i < |text| ensures CrlfAt(now, i) <==> CrlfAt(text, i) {}
  }

  /** Up to the next match, normalising copies. */
  lemma {:induction false} NormalizedSkips(text: seq<byte>, from: nat, idx: nat)
    requires from <= idx <= |text|
    requires forall i | from <= i < idx :: !CrlfAt(text, i)
    ensures Normalized(text[from..]) == text[from..idx] + Normalized(text[idx..])
    ensures CountCrlf(text[from..]) == CountCrlf(text[idx..])
    decreases idx - from
  {
    if from == idx {
      assert text[from..idx] == [];
    } else {
      NormalizedSkips(text, from + 1, idx);
      assert !CrlfAt(text, from);
      assert text[from..][1..] == text[from + 1..];
      assert text[from..idx] == [text[from]] + text[from + 1..idx];
    }
  }

  /** At a match, normalising drops the "\r" and goes on at the "\n". */
  lemma NormalizedAtMatch(text: seq<byte>, idx: nat)
    requires CrlfAt(text, idx)
    ensures Normalized(text[idx..]) == Normalized(text[idx + 1..])
    ensures CountCrlf(text[idx..]) == 1 + CountCrlf(text[idx + 1..])
  {
    assert text[idx..][2..] == text[idx + 2..];
    assert text[idx..][1..] == text[idx + 1..];
    assert text[idx + 1..][1..] == text[idx + 2..];
  }

  lemma NoMatchNormalizes(text: seq<byte>)
    requires forall i | 0 <= i < |text| :: !CrlfAt(text, i)
    ensures Normalized(text) == text && CountCrlf(text) == 0 && !HasCrlf(text)
  {
    NormalizedSkips(text, 0, |text|);
    assert text[0..] == text && text[0..|text|] == text && text[|text|..] == [];
  }

  lemma {:induction false} CountPositiveIff(s: seq<byte>)
    ensures CountCrlf(s) > 0 <==> HasCrlf(s)
  {
    if s != [] {
      CountPositiveIff(s[1..]);
      if HasCrlf(s) {
        var i :| 0 <= i < |s| - 1 && CrlfAt(s, i);
        assert i > 0 ==> CrlfAt(s[1..], i - 1);
      }
      if HasCrlf(s[1..]) {
        var i :| 0 <= i < |s[1..]| - 1 && CrlfAt(s[1..], i);
        assert CrlfAt(s, i + 1);
      }
    }
  }

  // ----- what the compaction keeps, and what it does not promise

  predicate EveryLfFollowsCr(s: seq<byte>) {
    forall i | 0 <= i < |s| && s[i] == LF :: CrlfAt(s, i - 1)
  }

  /** Re-expanding restores the text exactly when all of its newlines were "\r\n". */
  lemma {:induction false} RoundTripIff(s: seq<byte>)
    ensures Expanded(Normalized(s)) == s <==> EveryLfFollowsCr(s)
  {
    if s == [] {
    } else if CrlfAt(s, 0) {
      RoundTripIff(s[2..]);
      assert s == [CR, LF] + s[2..];
      assert EveryLfFollowsCr(s) ==> EveryLfFollowsCr(s[2..]) by {
        forall i | 0 <= i < |s[2..]| && s[2..][i] == LF && EveryLfFollowsCr(s) ensures CrlfAt(s[2..], i - 1) {
          assert CrlfAt(s, i + 1);
        }
      }
      assert EveryLfFollowsCr(s[2..]) ==> EveryLfFollowsCr(s) by {
        forall i | 0 <= i < |s| && s[i] == LF && EveryLfFollowsCr(s[2..]) ensures CrlfAt(s, i - 1) {
          if i > 1 {
            assert CrlfAt(s[2..], i - 3);
          }
        }
      }
      assert ([LF] + Normalized(s[2..]))[1..] == Normalized(s[2..]);
      assert Expanded(Normalized(s)) == [CR, LF] + Expanded(Normalized(s[2..]));
    } else {
      RoundTripIff(s[1..]);
      assert s == [s[0]] + s[1..];
      assert ([s[0]] + Normalized(s[1..]))[1..] == Normalized(s[1..]);
      if s[0] == LF {
        assert !CrlfAt(s, -1);
      } else {
        assert Expanded(Normalized(s)) == [s[0]] + Expanded(Normalized(s[1..]));
        EveryLfShift(s);
      }
    }
  }

  lemma EveryLfShift(s: seq<byte>)
    requires s != [] && s[0] != LF && !CrlfAt(s, 0)
    ensures EveryLfFollowsCr(s) <==> EveryLfFollowsCr(s[1..])
  {
    if EveryLfFollowsCr(s) {
      forall i | 0 <= i < |s[1..]| && s[1..][i] == LF ensures CrlfAt(s[1..], i - 1) {
        assert CrlfAt(s, i);
      }
    }
    if EveryLfFollowsCr(s[1..]) {
      forall i | 0 <= i < |s| && s[i] == LF ensures CrlfAt(s, i - 1) {
        assert s[1..][i - 1] == LF;
        assert CrlfAt(s[1..], i - 2);
      }
    }
  }

  predicate CrCrLfAt(s: seq<byte>, i: int) {
    0 <= i < |s| - 2 && s[i] == CR && CrlfAt(s, i + 1)
  }

  ghost predicate HasCrCrLf(s: seq<byte>) {
    exists i :: CrCrLfAt(s, i)
  }

  lemma {:induction false} NormalizedHasCrlfIff(s: seq<byte>)
    ensures s != [] ==> Normalized(s) != [] && Normalized(s)[0] == if CrlfAt(s, 0) then LF else s[0]
    ensures HasCrlf(Normalized(s)) <==> HasCrCrLf(s)
  {
    if s == [] {
    } else if CrlfAt(s, 0) {
      var rest := s[2..];
      NormalizedHasCrlfIff(rest);
      HasCrlfCons(LF, Normalized(rest));
      HasCrCrLfCons(s);
      assert s[1..] == [LF] + rest && [LF] + rest != [];
      HasCrCrLfCons(s[1..]);
      assert s[1..][1..] == rest;
    } else {
      var rest := s[1..];
      NormalizedHasCrlfIff(rest);
      HasCrlfCons(s[0], Normalized(rest));
      HasCrCrLfCons(s);
      if rest != [] {
        assert CrlfAt(rest, 0) <==> CrlfAt(s, 1);
      }
    }
  }

  lemma HasCrlfCons(b: byte, s: seq<byte>)
    ensures HasCrlf([b] + s) <==> (b == CR && s != [] && s[0] == LF) || HasCrlf(s)
  {
    var t := [b] + s;
    if HasCrlf(t) {
      var i :| 0 <= i < |t| - 1 && CrlfAt(t, i);
      if i > 0 {
        assert CrlfAt(s, i - 1);
      }
    }
    if b == CR && s != [] && s[0] == LF {
      assert CrlfAt(t, 0);
    }
    if HasCrlf(s) {
      var i :| 0 <= i < |s| - 1 && CrlfAt(s, i);
      assert CrlfAt(t, i + 1);
    }
  }

  lemma HasCrCrLfCons(s: seq<byte>)
    requires s != []
    ensures HasCrCrLf(s) <==> CrCrLfAt(s, 0) || HasCrCrLf(s[1..])
  {
    if HasCrCrLf(s) {
      var i :| CrCrLfAt(s, i);
      if i > 0 {
        assert CrCrLfAt(s[1..], i - 1);
      }
    }
    if HasCrCrLf(s[1..]) {
      var i :| CrCrLfAt(s[1..], i);
      assert CrCrLfAt(s, i + 1);
    }
  }

  lemma {:induction false} UnixTextIsFixed(s: seq<byte>)
    ensures Normalized(s) == s <==> !HasCrlf(s)
  {
    if !HasCrlf(s) {
      NoMatchNormalizes(s);
    } else {
      ShrinksByMatches(s);
      CountPositiveIff(s);
    }
  }

  lemma {:induction false} ShrinksByMatches(s: seq<byte>)
    ensures |Normalized(s)| == |s| - CountCrlf(s)
  {
    if s == [] {
    } else if CrlfAt(s, 0) {
      assert s[1..][1..] == s[2..];
      ShrinksByMatches(s[2..]);
    } else {
      ShrinksByMatches(s[1..]);
    }
  }

  /** "\r\r\n" is the one obstacle: the text kept in memory is free of "\r\n", and fixed, without it. */
  lemma IdempotentIff(s: seq<byte>)
    ensures Normalized(Normalized(s)) == Normalized(s) <==> !HasCrCrLf(s)
    ensures HasCrlf(Normalized(s)) <==> HasCrCrLf(s)
  {
    NormalizedHasCrlfIff(s);
    UnixTextIsFixed(Normalized(s));
  }

  /** The failing input of `IdempotentIff`. */
  lemma NormalizedTwice()
    ensures Normalized([CR, CR, LF]) == [CR, LF] && Normalized([CR, LF]) == [LF]
  {
    assert [CR, CR, LF][1..] == [CR, LF];
    assert [CR, LF][2..] == [];
  }
}
