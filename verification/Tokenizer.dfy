/** strtok of src/impl/string.c: it overwrites delimiters and resumes from a static pointer. */
module Tokenizer {
  import opened Bytes
  import opened Options

  /** The buffer and the static pointer. */
  datatype State = State(buf: Mem, p: Option<nat>)

  /** A zero lies at or behind a. */
  ghost predicate Terminated(m: Mem, a: nat) {
    exists z :: a <= z < |m| && m[z] == 0
  }

  /** The end of the C string at a. */
  ghost function StringEnd(m: Mem, a: nat): (z: nat)
    requires Terminated(m, a)
    ensures a <= z < |m| && m[z] == 0 && forall i :: a <= i < z ==> m[i] != 0
    decreases |m| - a
  {
    if m[a] == 0 then a else StringEnd(m, a + 1)
  }

  /** The C string at a. */
  ghost function StringAt(m: Mem, a: nat): Mem
    requires Terminated(m, a)
  {
    m[a..StringEnd(m, a)]
  }

  /** The first byte from a on that is not a delimiter. */
  ghost function SkipDelims(m: Mem, a: nat, delims: seq<byte>): (i: nat)
    requires Terminated(m, a) && 0 !in delims
    ensures a <= i < |m| && m[i] !in delims && Terminated(m, i)
    ensures forall k :: a <= k < i ==> m[k] in delims
    decreases |m| - a
  {
    if m[a] !in delims then a else SkipDelims(m, a + 1, delims)
  }

  /** The first delimiter from a on, or the end of the string. */
  ghost function FindDelim(m: Mem, a: nat, delims: seq<byte>): (i: nat)
    requires Terminated(m, a) && 0 !in delims
    ensures a <= i < |m| && (m[i] == 0 || m[i] in delims) && Terminated(m, i)
    ensures forall k :: a <= k < i ==> m[k] != 0 && m[k] !in delims
    decreases |m| - a
  {
    if m[a] == 0 || m[a] in delims then a else FindDelim(m, a + 1, delims)
  }

  /** strtok called on the string at a. */
  ghost function TokFrom(st: State, a: nat, delims: seq<byte>): (r: (State, Option<nat>))
    requires Terminated(st.buf, a) && 0 !in delims
    ensures |r.0.buf| == |st.buf|
    ensures r.1.Some? ==> r.0.p.Some? && a < r.0.p.value && Terminated(r.0.buf, r.0.p.value)
  {
    var i := SkipDelims(st.buf, a, delims);
    if st.buf[i] == 0 then (st, None)
    else
      var e := FindDelim(st.buf, i, delims);
      if st.buf[e] == 0 then (State(st.buf, Some(e)), Some(i))
      else
        assert Terminated(PutByte(st.buf, e, 0), e + 1) by { TerminatedBehind(st.buf, e); }
        (State(PutByte(st.buf, e, 0), Some(e + 1)), Some(i))
  }

  lemma TerminatedBehind(m: Mem, e: nat)
    requires Terminated(m, e) && m[e] != 0
    ensures Terminated(PutByte(m, e, 0), e + 1)
  {
    var z :| e <= z < |m| && m[z] == 0;
    assert PutByte(m, e, 0)[z] == 0;
  }

  /** What strtok may be given: a string, or NULL while the static pointer is NULL or on a string. */
  ghost predicate Tokenizable(st: State, s: Option<nat>) {
    match s
    case Some(a) => Terminated(st.buf, a)
    case None => st.p.Some? ==> Terminated(st.buf, st.p.value)
  }

  /** strtok called on s; on the static pointer if s is NULL. */
  ghost function Tok(st: State, s: Option<nat>, delims: seq<byte>): (r: (State, Option<nat>))
    requires 0 !in delims && Tokenizable(st, s)
    ensures |r.0.buf| == |st.buf|
    ensures r.1.Some? ==> Tokenizable(r.0, None) && Left(r.0, None) < Left(st, s)
  {
    match s
    case Some(a) => TokFrom(st, a, delims)
    case None => if st.p.None? then (st, None) else TokFrom(st, st.p.value, delims)
  }

  /** The bytes from where strtok starts to the end of the buffer. */
  ghost function Left(st: State, s: Option<nat>): nat
    requires Tokenizable(st, s)
  {
    match s
    case Some(a) => |st.buf| - a
    case None => if st.p.None? then 0 else |st.buf| - st.p.value
  }

  // ---- The tokens of a text ----

  /** text[i..j] is a nonempty run without delimiters that cannot be made longer. */
  ghost predicate MaximalRun(text: seq<byte>, delims: seq<byte>, i: nat, j: nat) {
    && i < j <= |text|
    && (forall k :: i <= k < j ==> text[k] !in delims)
    && (i == 0 || text[i - 1] in delims) && (j == |text| || text[j] in delims)
  }

  /** m holds, from a on, the text and its terminating zero. */
  ghost predicate Holds(m: Mem, text: seq<byte>, a: nat) {
    && a <= |text| < |m| && m[|text|] == 0 && 0 !in text
    && forall k :: a <= k < |text| ==> m[k] == text[k]
  }

  /** strtok called on s, and then on NULL until it answers NULL: the final state and the
      pointers returned on the way. */
  ghost function TokAll(st: State, s: Option<nat>, delims: seq<byte>): (State, seq<nat>)
    requires 0 !in delims && Tokenizable(st, s)
    decreases Left(st, s)
  {
    var (st1, r) := Tok(st, s, delims);
    if r.None? then (st1, [])
    else
      var (last, pointers) := TokAll(st1, None, delims);
      (last, [r.value] + pointers)
  }

  /** A run of the text ends at k. */
  ghost predicate RunEndsAt(text: seq<byte>, delims: seq<byte>, k: nat) {
    exists i: nat :: MaximalRun(text, delims, i, k)
  }

  /** The C string at i is the run of the text that starts there. */
  ghost predicate IsRunAt(m: Mem, text: seq<byte>, delims: seq<byte>, i: nat) {
    Terminated(m, i) && StringEnd(m, i) <= |text| && MaximalRun(text, delims, i, StringEnd(m, i))
    && StringAt(m, i) == text[i..StringEnd(m, i)]
  }

  ghost predicate Increasing(s: seq<nat>) {
    forall k, l :: 0 <= k < l < |s| ==> s[k] < s[l]
  }

  /** Where a run of the text ends in memory. */
  lemma RunEnds(m: Mem, text: seq<byte>, delims: seq<byte>, i: nat, e: nat)
    requires 0 !in text && i < e <= |text| < |m| && m[e] == 0 && MaximalRun(text, delims, i, e)
    requires forall k :: i <= k < e ==> m[k] == text[k]
    ensures IsRunAt(m, text, delims, i)
  {
    assert Terminated(m, i);
    EndIs(m, i, e);
    assert m[i..e] == text[i..e];
  }

  lemma {:induction false} EndIs(m: Mem, i: nat, e: nat)
    requires i <= e < |m| && m[e] == 0 && forall k :: i <= k < e ==> m[k] != 0
    ensures Terminated(m, i) && StringEnd(m, i) == e
    decreases e - i
  {
    assert Terminated(m, i);
    if i < e {
      EndIs(m, i + 1, e);
    }
  }

  /** Calling strtok on a text, or on NULL with the static pointer on it, and then on NULL until it
      answers NULL, returns pointers to exactly the maximal runs without delimiters, in order, each
      a C string of its own in the end; and once there was a token, further calls on NULL keep answering NULL. */
  lemma {:induction false} TokAllFindsRuns(st: State, text: seq<byte>, s: Option<nat>, a: nat, delims: seq<byte>)
    requires s == Some(a) || (s == None && st.p == Some(a))
    requires Holds(st.buf, text, a) && 0 !in delims && Terminated(st.buf, a)
    requires a == 0 || a == |text| || text[a - 1] in delims
    ensures var (last, pointers) := TokAll(st, s, delims);
      && |last.buf| == |st.buf| && (forall k :: 0 <= k < a ==> last.buf[k] == st.buf[k])
      && Increasing(pointers) && (forall i :: i in pointers ==> a <= i && IsRunAt(last.buf, text, delims, i))
      && (forall i: nat, j: nat :: MaximalRun(text, delims, i, j) && a <= i ==> i in pointers)
      && (pointers == [] ==> last == st)
      && (pointers != [] ==> Tokenizable(last, None) && Tok(last, None, delims) == (last, None))
    decreases |st.buf| - a
  {
    hide IsRunAt, MaximalRun, TokFrom, SkipDelims, FindDelim, Terminated, RunEndsAt, Tok, Left;
    TokStarts(st, s, a, delims);
    var (st1, r) := Tok(st, s, delims);
    OneToken(st, text, a, delims);
    if r.Some? {
      var i, e, b := r.value, FindDelim(st.buf, r.value, delims), st1.p.value;
      TokAllFindsRuns(st1, text, None, b, delims);
      var (last, rest) := TokAll(st1, None, delims);
      OneToken(st1, text, b, delims);
      TokStarts(st1, None, b, delims);
      RunEnds(last.buf, text, delims, i, e);
      FirstAndRest(text, delims, a, i, e, b, rest);
    }
  }

  /** The first run from a on and all runs from b on are all runs from a on. */
  lemma FirstAndRest(text: seq<byte>, delims: seq<byte>, a: nat, i: nat, e: nat, b: nat, rest: seq<nat>)
    requires MaximalRun(text, delims, i, e) && (forall k :: a <= k < i ==> text[k] in delims) && b <= e + 1
    requires a <= i < b && Increasing(rest) && forall x :: x in rest ==> b <= x
    requires forall x: nat, j: nat :: MaximalRun(text, delims, x, j) && b <= x ==> x in rest
    ensures Increasing([i] + rest) && forall x :: x in [i] + rest ==> x == i || x in rest
    ensures forall x: nat, j: nat :: MaximalRun(text, delims, x, j) && a <= x ==> x in [i] + rest
  {
    hide MaximalRun;
    assert forall k :: 0 <= k < |rest| ==> rest[k] in rest;
    forall x: nat, j: nat | MaximalRun(text, delims, x, j) && a <= x ensures x == i || x in rest {
      RunIsFirstOrLater(text, delims, a, i, e, x, j);
    }
  }

  /** A zero replaces the delimiter behind each run, and nothing else changes. */
  lemma {:induction false} TokAllCuts(st: State, text: seq<byte>, s: Option<nat>, a: nat, delims: seq<byte>)
    requires s == Some(a) || (s == None && st.p == Some(a))
    requires Holds(st.buf, text, a) && 0 !in delims && Terminated(st.buf, a)
    requires a == 0 || a == |text| || text[a - 1] in delims
    ensures var last := TokAll(st, s, delims).0;
      && |last.buf| == |st.buf|
      && forall k :: 0 <= k < |st.buf| ==>
           last.buf[k] == if a <= k < |text| && RunEndsAt(text, delims, k) then 0 else st.buf[k]
    decreases |st.buf| - a
  {
    hide MaximalRun, TokFrom, SkipDelims, FindDelim, Terminated, RunEndsAt, Tok, Left;
    TokStarts(st, s, a, delims);
    var (st1, r) := Tok(st, s, delims);
    OneToken(st, text, a, delims);
    if r.Some? {
      var i, e, b := r.value, FindDelim(st.buf, r.value, delims), st1.p.value;
      TokAllCuts(st1, text, None, b, delims);
      forall k | a <= k < b && k < |text| ensures RunEndsAt(text, delims, k) <==> k == e {
        FirstRunEnd(text, delims, a, i, e, k);
      }
    } else {
      forall k | a <= k < |text| ensures !RunEndsAt(text, delims, k) {
        NoRunEnd(text, delims, a, k);
      }
    }
  }

  lemma TokStarts(st: State, s: Option<nat>, a: nat, delims: seq<byte>)
    requires 0 !in delims && Tokenizable(st, s) && (s == Some(a) || (s == None && st.p == Some(a)))
    ensures Terminated(st.buf, a) && Tok(st, s, delims) == TokFrom(st, a, delims)
    ensures Left(st, s) == |st.buf| - a
  {
  }

  lemma FirstRunEnd(text: seq<byte>, delims: seq<byte>, a: nat, i: nat, e: nat, k: nat)
    requires MaximalRun(text, delims, i, e) && a <= k <= e && k < |text| && a <= i
    requires (a == 0 || text[a - 1] in delims) && forall x :: a <= x < i ==> text[x] in delims
    ensures RunEndsAt(text, delims, k) <==> k == e
  {
    if x: nat :| MaximalRun(text, delims, x, k) {
      assert text[k - 1] !in delims && text[k] in delims;
    }
  }

  lemma NoRunEnd(text: seq<byte>, delims: seq<byte>, a: nat, k: nat)
    requires a <= k < |text| && (a == 0 || text[a - 1] in delims)
    requires forall x: nat, j: nat :: MaximalRun(text, delims, x, j) ==> x < a
    ensures !RunEndsAt(text, delims, k)
  {
  }

  /** One call on a text: no run is left, or the first one is found and cut off, and what is
      behind it is untouched. */
  lemma OneToken(st: State, text: seq<byte>, a: nat, delims: seq<byte>)
    requires Holds(st.buf, text, a) && 0 !in delims && Terminated(st.buf, a)
    requires a == 0 || a == |text| || text[a - 1] in delims
    ensures TokFrom(st, a, delims).1 == None ==>
      TokFrom(st, a, delims).0 == st && forall x: nat, j: nat :: MaximalRun(text, delims, x, j) ==> x < a
    ensures a == |text| ==> TokFrom(st, a, delims).1 == None
    ensures TokFrom(st, a, delims).1.Some? ==>
      var (st1, r) := TokFrom(st, a, delims); var i := r.value;
      && a <= i < |st.buf| && Terminated(st.buf, i)
      && var e, b := FindDelim(st.buf, i, delims), st1.p.value;
      && i < e <= |text| && MaximalRun(text, delims, i, e) && (forall k :: a <= k < i ==> text[k] in delims)
      && a < b && e <= b <= e + 1 && Holds(st1.buf, text, b) && (b == |text| || text[b - 1] in delims)
      && st1.buf[e] == 0 && (forall k :: 0 <= k < |st.buf| && k != e ==> st1.buf[k] == st.buf[k])
      && (b == e ==> e == |text|)
  {
    var i := SkipDelims(st.buf, a, delims);
    if st.buf[i] == 0 {
      NoRunWithin(st.buf, text, a, i, delims);
    } else {
      FirstRun(st.buf, text, a, i, FindDelim(st.buf, i, delims), delims);
    }
  }

  lemma RunIsFirstOrLater(text: seq<byte>, delims: seq<byte>, a: nat, i: nat, e: nat, x: nat, j: nat)
    requires MaximalRun(text, delims, i, e) && MaximalRun(text, delims, x, j) && a <= x
    requires forall k :: a <= k < i ==> text[k] in delims
    ensures x == i || e < x
  {
    assert text[x] !in delims && (x == 0 || text[x - 1] in delims);
  }

  lemma NoRunWithin(m: Mem, text: seq<byte>, a: nat, i: nat, delims: seq<byte>)
    requires Holds(m, text, a) && a <= i < |m| && m[i] == 0 && 0 !in delims && forall k :: a <= k < i ==> m[k] in delims
    ensures forall x: nat, j: nat :: MaximalRun(text, delims, x, j) ==> x < a
  {
    assert i == |text|;
    forall x: nat, j: nat | MaximalRun(text, delims, x, j) ensures x < a {
      assert text[x] !in delims;
    }
  }

  lemma FirstRun(m: Mem, text: seq<byte>, a: nat, i: nat, e: nat, delims: seq<byte>)
    requires Holds(m, text, a) && (a == 0 || a == |text| || text[a - 1] in delims) && 0 !in delims
    requires a <= i < |m| && m[i] != 0 && m[i] !in delims && forall k :: a <= k < i ==> m[k] in delims
    requires i <= e < |m| && (m[e] == 0 || m[e] in delims) && forall k :: i <= k < e ==> m[k] != 0 && m[k] !in delims
    ensures i < e <= |text| && MaximalRun(text, delims, i, e) && (m[e] == 0 <==> e == |text|)
  {
    assert i < |text|;
    assert e <= |text|;
  }

  // ---- The code ----

  class StrTok {
    const buf: array<byte>
    var p: Option<nat>

    ghost function View(): State
      reads this, buf
    {
      State(buf[..], p)
    }

    constructor (memory: array<byte>)
      ensures buf == memory && p == None
    {
      buf := memory;
      p := None;
    }

    /** is_delim, for a list of delimiters that ends with a zero at position n. */
    static method IsDelim(c: byte, delim: array<byte>, ghost n: nat) returns (r: bool)
      requires n < delim.Length && delim[n] == 0 && 0 !in delim[..n]
      ensures r == (c in delim[..n])
    {
      var k := 0;
      while delim[k] != 0
        invariant k <= n && c !in delim[..k]
        decreases n - k
      {
        if c == delim[k] {
          return true;
        }
        k := k + 1;
      }
      return false;
    }

    /** The first loop of strtok. */
    method Skip(from: nat, delim: array<byte>, ghost n: nat) returns (s: nat)
      requires n < delim.Length && delim[n] == 0 && 0 !in delim[..n] && Terminated(buf[..], from)
      ensures s == SkipDelims(buf[..], from, delim[..n])
    {
      s := from;
      while true
        invariant s < buf.Length && Terminated(buf[..], s)
        invariant SkipDelims(buf[..], s, delim[..n]) == SkipDelims(buf[..], from, delim[..n])
        decreases buf.Length - s
      {
        var d := IsDelim(buf[s], delim, n);
        if d {
          s := s + 1;
          continue;
        }
        break;
      }
    }

    /** The second loop of strtok. */
    method Cut(from: nat, delim: array<byte>, ghost n: nat)
      requires n < delim.Length && delim[n] == 0 && 0 !in delim[..n] && delim != buf && Terminated(buf[..], from)
      modifies this, buf
      ensures var e := FindDelim(old(buf[..]), from, old(delim[..n]));
        View() == if old(buf[e]) == 0 then State(old(buf[..]), Some(e))
          else State(PutByte(old(buf[..]), e, 0), Some(e + 1))
    {
      var s := from;
      while true
        invariant s < buf.Length && buf[..] == old(buf[..]) && delim[..n] == old(delim[..n]) && Terminated(buf[..], s)
        invariant FindDelim(buf[..], s, delim[..n]) == FindDelim(buf[..], from, delim[..n])
        decreases buf.Length - s
      {
        if buf[s] == 0 {
          p := Some(s);
          return;
        }
        var d := IsDelim(buf[s], delim, n);
        if d {
          buf[s] := 0;
          p := Some(s + 1);
          return;
        }
        s := s + 1;
      }
    }

    /** strtok */
    method Next(from: Option<nat>, delim: array<byte>, ghost n: nat) returns (token: Option<nat>)
      requires n < delim.Length && delim[n] == 0 && 0 !in delim[..n] && delim != buf
      requires Tokenizable(View(), from)
      modifies this, buf
      ensures (View(), token) == Tok(old(View()), from, old(delim[..n]))
    {
      if from == None && p == None {
        return None;
      }
      var s := Skip(if from == None then p.value else from.value, delim, n);
      if buf[s] == 0 {
        return None;
      }
      Cut(s, delim, n);
      token := Some(s);
    }
  }
}
