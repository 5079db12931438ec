// The stateful in-place tokenizer `sm_strtok` of ev-sdk/utils/sm_string_util.c.  The
// delimiter string is only searched with strchr, so it is modelled as a set.
module Tokenizer {
  import opened Optional

  const NUL: char := '\0'

  /** A token as the half-open address range [start, end). */
  datatype Token = Token(start: nat, end: nat)

  // ----- tokens of a text ----------------------------------------------------------------

  /** The text at `p` in memory `m` ends at `end`, where its terminator stands. */
  ghost predicate TextAt(m: seq<char>, p: nat, end: nat) {
    p <= end < |m| && m[end] == NUL && forall k :: p <= k < end ==> m[k] != NUL
  }

  /** The first address from `i` on that is not a delimiter, or the end of the text. */
  function SkipDelims(m: seq<char>, delim: set<char>, i: nat, end: nat): (b: nat)
    requires i <= end <= |m|
    ensures i <= b <= end && (forall k :: i <= k < b ==> m[k] in delim) && (b < end ==> m[b] !in delim)
    decreases end - i
  {
    if i < end && m[i] in delim then SkipDelims(m, delim, i + 1, end) else i
  }

  /** The first address from `i` on that is a delimiter, or the end of the text. */
  function SkipToken(m: seq<char>, delim: set<char>, i: nat, end: nat): (e: nat)
    requires i <= end <= |m|
    ensures i <= e <= end && (forall k :: i <= k < e ==> m[k] !in delim) && (e < end ==> m[e] in delim)
    decreases end - i
  {
    if i < end && m[i] !in delim then SkipToken(m, delim, i + 1, end) else i
  }

  /** The tokens of the text from `i` on. */
  function Tokens(m: seq<char>, delim: set<char>, i: nat, end: nat): seq<Token>
    requires i <= end <= |m|
    decreases end - i
  {
    var b := SkipDelims(m, delim, i, end);
    if b == end then [] else
      var e := SkipToken(m, delim, b, end);
      [Token(b, e)] + if e < end then Tokens(m, delim, e + 1, end) else []
  }

  lemma TokensCases(m: seq<char>, delim: set<char>, i: nat, end: nat)
    requires i <= end <= |m|
    ensures var b := SkipDelims(m, delim, i, end);
      if b == end then Tokens(m, delim, i, end) == []
      else
        var e := SkipToken(m, delim, b, end);
        && b < e
        && Tokens(m, delim, i, end) == if e < end then [Token(b, e)] + Tokens(m, delim, e + 1, end) else [Token(b, e)]
  {
    hide SkipDelims, SkipToken;
  }

  /** A run of the text [p, end) without delimiters that cannot be extended to either side. */
  ghost predicate MaximalRun(m: seq<char>, delim: set<char>, p: nat, end: nat, t: Token)
    requires p <= end <= |m|
  {
    && p <= t.start < t.end <= end
    && (forall k :: t.start <= k < t.end ==> m[k] !in delim)
    && (t.start > p ==> m[t.start - 1] in delim)
    && (t.end < end ==> m[t.end] in delim)
  }

  /** `ts` lists exactly the maximal runs, each once, from left to right. */
  ghost predicate ListsRuns(m: seq<char>, delim: set<char>, p: nat, end: nat, ts: seq<Token>)
    requires p <= end <= |m|
  {
    && (forall t :: MaximalRun(m, delim, p, end, t) ==> t in ts)
    && (forall k :: 0 <= k < |ts| ==> MaximalRun(m, delim, p, end, ts[k]))
    && (forall j, k :: 0 <= j < k < |ts| ==> ts[j].end < ts[k].start)
  }

  lemma NoRun(m: seq<char>, delim: set<char>, p: nat, end: nat)
    requires p <= end <= |m| && forall k :: p <= k < end ==> m[k] in delim
    ensures ListsRuns(m, delim, p, end, [])
  {
    forall t: Token
      ensures !MaximalRun(m, delim, p, end, t)
    {
      assert p <= t.start < end ==> m[t.start] in delim;
    }
  }

  lemma FirstRun(m: seq<char>, delim: set<char>, p: nat, b: nat, e: nat, end: nat, rest: seq<Token>)
    requires p <= b < e < end <= |m| && (forall k :: p <= k < b ==> m[k] in delim)
    requires (forall k :: b <= k < e ==> m[k] !in delim) && m[e] in delim
    requires ListsRuns(m, delim, e + 1, end, rest)
    ensures ListsRuns(m, delim, p, end, [Token(b, e)] + rest)
  {
    var ts := [Token(b, e)] + rest;
    forall t | MaximalRun(m, delim, p, end, t)
      ensures t in ts
    {
      assert m[t.start] !in delim;
      if t.start <= e {
        assert t.start == b && t.end == e;
        assert ts[0] == t;
      } else {
        assert MaximalRun(m, delim, e + 1, end, t);
        assert t in rest;
      }
    }
  }

  lemma LastRun(m: seq<char>, delim: set<char>, p: nat, b: nat, end: nat)
    requires p <= b < end <= |m| && (forall k :: p <= k < b ==> m[k] in delim)
    requires forall k :: b <= k < end ==> m[k] !in delim
    ensures ListsRuns(m, delim, p, end, [Token(b, end)])
  {
    forall t | MaximalRun(m, delim, p, end, t)
      ensures t == Token(b, end)
    {
      assert m[t.start] !in delim;
    }
  }

  /** The tokens are exactly the maximal delimiter-free runs, in order. */
  lemma {:induction false} TokensAreRuns(m: seq<char>, delim: set<char>, p: nat, end: nat)
    requires p <= end <= |m|
    ensures ListsRuns(m, delim, p, end, Tokens(m, delim, p, end))
    decreases end - p
  {
    hide ListsRuns, Tokens, SkipDelims, SkipToken;
    TokensCases(m, delim, p, end);
    var b := SkipDelims(m, delim, p, end);
    if b == end {
      NoRun(m, delim, p, end);
    } else {
      var e := SkipToken(m, delim, b, end);
      if e < end {
        TokensAreRuns(m, delim, e + 1, end);
        FirstRun(m, delim, p, b, e, end, Tokens(m, delim, e + 1, end));
      } else {
        LastRun(m, delim, p, b, end);
      }
    }
  }

  lemma {:induction false} SkipFrame(m: seq<char>, n: seq<char>, delim: set<char>, i: nat, end: nat)
    requires i <= end <= |m| == |n| && forall k :: i <= k < end ==> m[k] == n[k]
    ensures SkipDelims(m, delim, i, end) == SkipDelims(n, delim, i, end)
    ensures SkipToken(m, delim, i, end) == SkipToken(n, delim, i, end)
    decreases end - i
  {
    if i < end { SkipFrame(m, n, delim, i + 1, end); }
  }

  /** Only the text from `i` on matters. */
  lemma {:induction false} TokensFrame(m: seq<char>, n: seq<char>, delim: set<char>, i: nat, end: nat)
    requires i <= end <= |m| == |n| && forall k :: i <= k < end ==> m[k] == n[k]
    ensures Tokens(m, delim, i, end) == Tokens(n, delim, i, end)
    decreases end - i
  {
    hide Tokens, SkipDelims, SkipToken;
    TokensCases(m, delim, i, end);
    TokensCases(n, delim, i, end);
    SkipFrame(m, n, delim, i, end);
    var b := SkipDelims(m, delim, i, end);
    if b < end {
      SkipFrame(m, n, delim, b, end);
      var e := SkipToken(m, delim, b, end);
      if e < end { TokensFrame(m, n, delim, e + 1, end); }
    }
  }

  // ----- the state between two calls -----------------------------------------------------------

  /** The token stands in memory `cur` as in the original `m`, with a terminator behind it. */
  ghost predicate InPlace(m: seq<char>, cur: seq<char>, t: Token) {
    && t.start <= t.end < |cur| == |m|
    && cur[t.end] == NUL
    && forall i :: t.start <= i < t.end ==> cur[i] == m[i] != NUL
  }

  /** The first `k` tokens of the text at `p` have been returned; the cursor stands before the others, whose text is
      untouched, and so is all memory outside the text. */
  ghost predicate Consumed(m: seq<char>, cur: seq<char>, next: Option<nat>, delim: set<char>, p: nat, end: nat,
                           ts: seq<Token>, k: nat) {
    && |cur| == |m| && k <= |ts| && TextAt(m, p, end)
    && (next.None? ==> k == |ts|)
    && (next.Some? ==>
          && p <= next.value <= end && Tokens(m, delim, next.value, end) == ts[k..]
          && (forall i :: next.value <= i <= end ==> cur[i] == m[i])
          && (forall j :: 0 <= j < k ==> ts[j].end < next.value))
    && (forall i :: 0 <= i < p || end < i < |m| ==> cur[i] == m[i])
    && forall j :: 0 <= j < k ==> InPlace(m, cur, ts[j])
  }

  lemma Start(m: seq<char>, delim: set<char>, p: nat, end: nat)
    requires TextAt(m, p, end)
    ensures Consumed(m, m, Some(p), delim, p, end, Tokens(m, delim, p, end), 0)
  {
  }

  lemma Finish(m: seq<char>, cur: seq<char>, next: Option<nat>, delim: set<char>, p: nat, end: nat, ts: seq<Token>,
               k: nat)
    requires Consumed(m, cur, next, delim, p, end, ts, k)
    ensures |cur| == |m| && forall j :: 0 <= j < k ==> InPlace(m, cur, ts[j])
    ensures forall i :: 0 <= i < p || end < i < |m| ==> cur[i] == m[i]
  {
  }

  lemma ConsumeOne(m: seq<char>, cur: seq<char>, c: nat, delim: set<char>, p: nat, end: nat, ts: seq<Token>, k: nat,
                   e: nat)
    requires Consumed(m, cur, Some(c), delim, p, end, ts, k) && k < |ts|
    requires c <= ts[k].start < ts[k].end == e <= end
    requires if e < end then Tokens(m, delim, e + 1, end) == ts[k + 1..] else k + 1 == |ts|
    ensures Consumed(m, if e < end then cur[e := NUL] else cur, if e < end then Some(e + 1) else None, delim, p, end,
      ts, k + 1)
  {
    hide Tokens;
    var now := if e < end then cur[e := NUL] else cur;
    forall j | 0 <= j < k
      ensures InPlace(m, now, ts[j])
    {
      assert InPlace(m, cur, ts[j]) && ts[j].end < c;
    }
  }

  /** What one call does to the state, in the terms of its contract. */
  lemma Step(m: seq<char>, cur: seq<char>, from: Option<nat>, delim: set<char>, p: nat, end: nat, ts: seq<Token>,
             k: nat)
    requires Consumed(m, cur, from, delim, p, end, ts, k)
    ensures from.None? ==> k == |ts|
    ensures from.Some? ==> TextAt(cur, from.value, end)
    ensures from.Some? ==>
      var b := SkipDelims(cur, delim, from.value, end);
      if b == end then k == |ts|
      else
        var e := SkipToken(cur, delim, b, end);
        && k < |ts| && ts[k].start == b
        && Consumed(m, if e < end then cur[e := NUL] else cur, if e < end then Some(e + 1) else None, delim, p, end,
          ts, k + 1)
  {
    hide Tokens, SkipDelims, SkipToken;
    if from.Some? {
      var c := from.value;
      TokensCases(m, delim, c, end);
      SkipFrame(m, cur, delim, c, end);
      var b := SkipDelims(m, delim, c, end);
      if b < end {
        SkipFrame(m, cur, delim, b, end);
        var e := SkipToken(m, delim, b, end);
        assert ts[k] == ts[k..][0] && ts[k + 1..] == ts[k..][1..];
        ConsumeOne(m, cur, c, delim, p, end, ts, k, e);
      }
    }
  }

  /** The results of `count` calls: the tokens, then NULL. */
  function Results(ts: seq<Token>, count: nat): (r: seq<Option<nat>>)
    ensures |r| == count && forall k :: 0 <= k < count ==> r[k] == if k < |ts| then Some(ts[k].start) else None
  {
    seq(count, k requires 0 <= k => if k < |ts| then Some(ts[k].start) else None)
  }

  lemma ResultsStep(ts: seq<Token>, count: nat)
    requires ts != [] && count > 0
    ensures Results(ts, count) == [Some(ts[0].start)] + Results(ts[1..], count - 1)
  {
  }

  /** Behind a terminator written at `e` the text and its tokens are as before. */
  lemma RestTokens(m: seq<char>, mid: seq<char>, delim: set<char>, e: nat, end: nat)
    requires TextAt(m, e, end) && e < end && mid == m[e := NUL]
    ensures TextAt(mid, e + 1, end) && Tokens(mid, delim, e + 1, end) == Tokens(m, delim, e + 1, end)
  {
    hide Tokens;
    TokensFrame(m, mid, delim, e + 1, end);
  }

  lemma TokensStart(m: seq<char>, delim: set<char>, i: nat, end: nat)
    requires i <= end <= |m|
    ensures var ts := Tokens(m, delim, i, end); forall k :: 0 <= k < |ts| ==> i <= ts[k].start
  {
    hide Tokens;
    TokensAreRuns(m, delim, i, end);
  }

  lemma FirstInPlace(m: seq<char>, mid: seq<char>, now: seq<char>, t: Token, end: nat)
    requires TextAt(m, t.start, end) && t.start <= t.end <= end && |now| == |m|
    requires mid == if t.end < end then m[t.end := NUL] else m
    requires if t.end < end then forall i :: 0 <= i <= t.end ==> now[i] == mid[i] else now == mid
    ensures InPlace(m, now, t)
  {
  }

  lemma RestInPlace(m: seq<char>, mid: seq<char>, now: seq<char>, delim: set<char>, e: nat, end: nat, ts: seq<Token>,
                    count: nat)
    requires e < end < |m| && mid == m[e := NUL] && ts == Tokens(mid, delim, e + 1, end)
    requires forall k :: 0 <= k < |ts| && k < count ==> InPlace(mid, now, ts[k])
    ensures forall k :: 0 <= k < |ts| && k < count ==> InPlace(m, now, ts[k])
  {
    hide Tokens;
    TokensStart(mid, delim, e + 1, end);
    forall k | 0 <= k < |ts| && k < count
      ensures InPlace(m, now, ts[k])
    {
      assert InPlace(mid, now, ts[k]) && e < ts[k].start;
      assert forall i :: ts[k].start <= i < ts[k].end ==> mid[i] == m[i];
    }
  }

  // ----- the tokenizer ------------------------------------------------------------------------

  /** The calls after a first one that has found no token. */
  lemma NullThenTokens(us: seq<Token>, rest: seq<Option<nat>>, count: nat)
    requires count > 0 && rest == Results(us, count - 1)
    ensures var results := [None] + rest;
      count > 1 ==> ((forall k :: 0 <= k < count ==> results[k] == None) <==> us == [])
  {
    var results := [None] + rest;
    if count > 1 { assert results[1] == rest[0]; }
  }

  /** The calls after a first one that has found a token. */
  lemma FirstThenTokens(m: seq<char>, mid: seq<char>, now: seq<char>, delim: set<char>, end: nat, ts: seq<Token>,
                        rest: seq<Option<nat>>, count: nat)
    requires ts != [] && count > 0 && TextAt(m, ts[0].start, end) && ts[0].start <= ts[0].end <= end && |now| == |m|
    requires mid == if ts[0].end < end then m[ts[0].end := NUL] else m
    requires rest == Results(ts[1..], count - 1)
    requires if ts[0].end < end then
        && ts[1..] == Tokens(mid, delim, ts[0].end + 1, end)
        && (forall k :: 0 <= k < |ts| - 1 && k < count - 1 ==> InPlace(mid, now, ts[1..][k]))
        && (forall i :: 0 <= i <= ts[0].end ==> now[i] == mid[i])
      else ts[1..] == [] && now == mid
    ensures [Some(ts[0].start)] + rest == Results(ts, count)
    ensures forall k :: 0 <= k < |ts| && k < count ==> InPlace(m, now, ts[k])
  {
    hide Tokens, InPlace;
    ResultsStep(ts, count);
    FirstInPlace(m, mid, now, ts[0], end);
    if ts[0].end < end { RestInPlace(m, mid, now, delim, ts[0].end, end, ts[1..], count - 1); }
    forall k | 0 <= k < |ts| && k < count
      ensures InPlace(m, now, ts[k])
    {
      assert k > 0 ==> ts[k] == ts[1..][k - 1];
    }
  }

  lemma ExampleTokens(m: seq<char>)
    requires m == ['a', ',', 'b', NUL, ',', NUL]
    ensures SkipDelims(m, {','}, 0, 3) == 0 && SkipToken(m, {','}, 0, 3) == 1
  {
  }

  lemma ExampleRest(m: seq<char>)
    requires m == ['a', NUL, 'b', NUL, ',', NUL]
    ensures Tokens(m, {','}, 4, 5) == [] && Tokens(m, {','}, 2, 3) == [Token(2, 3)]
  {
    assert SkipDelims(m, {','}, 4, 5) == 5;
    assert SkipDelims(m, {','}, 2, 3) == 2 && SkipToken(m, {','}, 2, 3) == 3;
  }

  class Strtok {
    const mem: array<char>     // the memory that addresses refer to
    var next: Option<nat>      // the static cursor

    constructor (m: array<char>)
      ensures mem == m && next == None
    {
      mem := m;
      next := None;
    }

    /** One call.  `end` is the end of the text at the address the call starts from. */
    method Call(str: Option<nat>, delim: set<char>, ghost end: nat) returns (token: Option<nat>)
      requires NUL !in delim
      requires var from := if str.Some? then str else next; from.Some? ==> TextAt(mem[..], from.value, end)
      modifies this, mem
      ensures var from := if str.Some? then str else old(next);
        if from.None? then token == None && next == None && mem[..] == old(mem[..])
        else
          var m := old(mem[..]);
          var b := SkipDelims(m, delim, from.value, end);
          if b == end then token == None && next == old(next) && mem[..] == m
          else
            var e := SkipToken(m, delim, b, end);
            && token == Some(b)
            && next == (if e < end then Some(e + 1) else None)
            && mem[..] == if e < end then m[e := NUL] else m
    {
      var from := if str.Some? then str else next;
      if from.None? {
        return None;
      }
      ghost var m := mem[..];
      var p := from.value;
      while mem[p] != NUL && mem[p] in delim
        invariant from.value <= p <= end
        invariant SkipDelims(m, delim, from.value, end) == SkipDelims(m, delim, p, end)
        decreases end - p
      {
        assert m[p] == mem[p];
        p := p + 1;
      }
      assert m[p] == mem[p];
      if mem[p] == NUL {
        return None;
      }
      token := Some(p);
      ghost var b := p;
      while mem[p] != NUL && mem[p] !in delim
        invariant b <= p <= end
        invariant SkipToken(m, delim, b, end) == SkipToken(m, delim, p, end)
        decreases end - p
      {
        assert m[p] == mem[p];
        p := p + 1;
      }
      assert m[p] == mem[p];
      if mem[p] != NUL {
        mem[p] := NUL;
        assert mem[..] == m[p := NUL];
        next := Some(p + 1);
      } else {
        next := None;
      }
    }

    /** Any number of calls with NULL: the results are the tokens of the text at the cursor, in order, and then NULL for
        ever; every token returned is a terminated string in place, and nothing outside that text is changed. */
    method CallRest(delim: set<char>, count: nat, ghost end: nat) returns (results: seq<Option<nat>>)
      requires NUL !in delim && (next.Some? ==> TextAt(mem[..], next.value, end))
      modifies this, mem
      ensures old(next).None? ==> mem[..] == old(mem[..]) && results == Results([], count)
      ensures old(next).Some? ==>
        var m, p := old(mem[..]), old(next).value;
        var ts := Tokens(m, delim, p, end);
        && results == Results(ts, count)
        && (forall k :: 0 <= k < |ts| && k < count ==> InPlace(m, mem[..], ts[k]))
        && (forall i :: 0 <= i < p || end < i < |m| ==> mem[i] == m[i])
    {
      hide Consumed, Tokens, SkipDelims, SkipToken;
      results := [];
      if next.None? {
        for n := 0 to count
          invariant next.None? && mem[..] == old(mem[..]) && results == Results([], n)
        {
          var token := Call(None, delim, end);
          results := results + [token];
        }
        return;
      }
      ghost var m, p := mem[..], next.value;
      ghost var ts := Tokens(m, delim, p, end);
      Start(m, delim, p, end);
      ghost var k := 0;
      for n := 0 to count
        invariant k == (if n < |ts| then n else |ts|) && results == Results(ts, n)
        invariant Consumed(m, mem[..], next, delim, p, end, ts, k)
      {
        Step(m, mem[..], next, delim, p, end, ts, k);
        var token := Call(None, delim, end);
        results := results + [token];
        if k < |ts| { k := k + 1; }
      }
      Finish(m, mem[..], next, delim, p, end, ts, k);
    }

    /** A first call with the text at `p` and then any number of calls with NULL.  If the text has a token, the results
        are its tokens in order and then NULL for ever.  If it has none, the first result is NULL and the following
        calls go on with the text at which an earlier string left the cursor: then all results are NULL exactly if there
        is no such text or it has no token either. */
    method CallMany(p: nat, delim: set<char>, count: nat, ghost end: nat, ghost earlierEnd: nat)
      returns (results: seq<Option<nat>>)
      requires NUL !in delim && TextAt(mem[..], p, end)
      requires Tokens(mem[..], delim, p, end) == [] && next.Some? ==> TextAt(mem[..], next.value, earlierEnd)
      modifies this, mem
      ensures var ts := Tokens(old(mem[..]), delim, p, end);
        ts != [] ==>
          && results == Results(ts, count)
          && (forall k :: 0 <= k < |ts| && k < count ==> InPlace(old(mem[..]), mem[..], ts[k]))
      ensures Tokens(old(mem[..]), delim, p, end) == [] && count > 0 ==>
        var us := if old(next).None? then [] else Tokens(old(mem[..]), delim, old(next).value, earlierEnd);
        && results == [None] + Results(us, count - 1)
        && (forall k :: 0 <= k < |us| && k < count - 1 ==> InPlace(old(mem[..]), mem[..], us[k]))
        && (count > 1 ==> ((forall k :: 0 <= k < count ==> results[k] == None) <==> us == []))
    {
      hide Tokens, SkipDelims, SkipToken, InPlace, Results;
      if count == 0 {
        return [];
      }
      ghost var m := mem[..];
      ghost var ts := Tokens(m, delim, p, end);
      TokensCases(m, delim, p, end);
      var first := Call(Some(p), delim, end);
      ghost var mid := mem[..];
      if ts != [] && ts[0].end < end { RestTokens(m, mid, delim, ts[0].end, end); }
      var rest := CallRest(delim, count - 1, if ts == [] then earlierEnd else end);
      results := [first] + rest;
      if ts == [] {
        ghost var us := if old(next).None? then [] else Tokens(m, delim, old(next).value, earlierEnd);
        NullThenTokens(us, rest, count);
      } else {
        FirstThenTokens(m, mid, mem[..], delim, end, ts, rest, count);
      }
    }
  }

  /** The smallest case: after the first token of "a,b" the text "," is given, which has none.  The first result is NULL
      and the next is the rest of the earlier text. */
  method EarlierTextGoesOn() returns (first: Option<nat>, results: seq<Option<nat>>)
    ensures first == Some(0) && results == [None, Some(2)]
  {
    var mem := new char[6] ['a', ',', 'b', NUL, ',', NUL];
    var tok := new Strtok(mem);
    ghost var m := mem[..];
    ExampleTokens(m);
    first := tok.Call(Some(0), {','}, 3);
    ghost var now := mem[..];
    assert now == m[1 := NUL];
    ExampleRest(now);
    results := tok.CallMany(4, {','}, 2, 5, 3);
  }
}
