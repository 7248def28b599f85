/** strtok_r cuts a string, in place, into its maximal runs of non-delimiters. */
module Tokenizer {
  import opened Bytes
  import opened CStrings
  import opened Options

  /** s[i..e] is a token: a non-empty run of non-delimiters that cannot be extended. */
  ghost predicate IsToken(s: seq<Byte>, d: set<Byte>, i: int, e: int) {
    && 0 <= i < e <= |s|
    && (forall k | i <= k < e :: s[k] !in d)
    && (i > 0 ==> s[i - 1] in d)
    && (e < |s| ==> s[e] in d)
  }

  /** The delimiter at k ends a token, so it is the byte that is overwritten. */
  ghost predicate EndsToken(s: seq<Byte>, d: set<Byte>, k: int) {
    0 < k < |s| && s[k] in d && s[k - 1] !in d
  }

  /** A token can start at p: at the beginning, or after a delimiter. */
  ghost predicate IsStart(s: seq<Byte>, d: set<Byte>, p: int) {
    0 <= p <= |s| && (p > 0 ==> s[p - 1] in d)
  }

  function SkipDelims(s: seq<Byte>, d: set<Byte>, p: nat): (q: nat)
    requires p <= |s|
    ensures p <= q <= |s| && (forall k | p <= k < q :: s[k] in d)
    ensures q < |s| ==> s[q] !in d
    decreases |s| - p
  {
    if p < |s| && s[p] in d then SkipDelims(s, d, p + 1) else p
  }

  function TokenEnd(s: seq<Byte>, d: set<Byte>, p: nat): (e: nat)
    requires p <= |s|
    ensures p <= e <= |s| && (forall k | p <= k < e :: s[k] !in d)
    ensures e < |s| ==> s[e] in d
    decreases |s| - p
  {
    if p < |s| && s[p] !in d then TokenEnd(s, d, p + 1) else p
  }

  /** A token starts at i. */
  predicate StartsToken(s: seq<Byte>, d: set<Byte>, i: int) {
    0 <= i < |s| && s[i] !in d && (i > 0 ==> s[i - 1] in d)
  }

  /** The places from p on where a token starts, in order. */
  function TokenStarts(s: seq<Byte>, d: set<Byte>, p: nat): (r: seq<nat>)
    decreases |s| - p
  {
    if p >= |s| then []
    else if StartsToken(s, d, p) then [p] + TokenStarts(s, d, p + 1)
    else TokenStarts(s, d, p + 1)
  }

  lemma {:induction false} StartsInOrder(s: seq<Byte>, d: set<Byte>, p: nat)
    ensures forall k | 0 <= k < |TokenStarts(s, d, p)| ::
              p <= TokenStarts(s, d, p)[k] && StartsToken(s, d, TokenStarts(s, d, p)[k])
    ensures forall a, b | 0 <= a < b < |TokenStarts(s, d, p)| :: TokenStarts(s, d, p)[a] < TokenStarts(s, d, p)[b]
    decreases |s| - p
  {
    if p < |s| {
      StartsInOrder(s, d, p + 1);
    }
  }

  lemma {:induction false} EveryStartListed(s: seq<Byte>, d: set<Byte>, p: nat, i: nat)
    requires p <= i && StartsToken(s, d, i)
    ensures i in TokenStarts(s, d, p)
    decreases |s| - p
  {
    if p < i {
      EveryStartListed(s, d, p + 1, i);
    }
  }

  /** The list holds exactly the starts of the tokens of the string. */
  lemma StartsAreTokens(s: seq<Byte>, d: set<Byte>, i: nat)
    ensures i in TokenStarts(s, d, 0) <==> exists e :: IsToken(s, d, i, e)
  {
    StartsInOrder(s, d, 0);
    if StartsToken(s, d, i) {
      EveryStartListed(s, d, 0, i);
      assert IsToken(s, d, i, TokenEnd(s, d, i));
    }
  }

  lemma {:induction false} NoStartBetween(s: seq<Byte>, d: set<Byte>, p: nat, r: nat)
    requires p <= r <= |s| && forall k | p <= k < r :: !StartsToken(s, d, k)
    ensures TokenStarts(s, d, p) == TokenStarts(s, d, r)
    decreases r - p
  {
    if p < r {
      NoStartBetween(s, d, p + 1, r);
    }
  }

  /** Skipping delimiters finds the next start, and the end of its token leads to the one after. */
  lemma NextStart(s: seq<Byte>, d: set<Byte>, p: nat, q: nat, e: nat)
    requires IsStart(s, d, p) && q == SkipDelims(s, d, p) && e == TokenEnd(s, d, q)
    ensures TokenStarts(s, d, p) ==
      if q == |s| then [] else [q] + if e == |s| then [] else TokenStarts(s, d, e + 1)
  {
    NoStartBetween(s, d, p, q);
    if q < |s| {
      assert p < q ==> s[q - 1] in d;
      StartsAfter(s, d, q, e);
    }
  }

  lemma StartsAfter(s: seq<Byte>, d: set<Byte>, q: nat, e: nat)
    requires StartsToken(s, d, q) && q < e <= |s| && (e < |s| ==> s[e] in d)
    requires forall k | q <= k < e :: s[k] !in d
    ensures TokenStarts(s, d, q) == [q] + if e == |s| then [] else TokenStarts(s, d, e + 1)
  {
    forall k | q + 1 <= k < e ensures !StartsToken(s, d, k) {
      assert s[k - 1] !in d;
    }
    NoStartBetween(s, d, q + 1, e);
    assert TokenStarts(s, d, q) == [q] + TokenStarts(s, d, q + 1);
  }

  function Chars(delim: seq<Byte>): set<Byte> {
    set c | c in delim
  }

  /** The scan over the delimiter string. */
  method IsDelimiter(delim: seq<Byte>, c: Byte) returns (hit: bool)
    requires NulFree(delim)
    ensures hit <==> c in Chars(delim)
  {
    var i := 0;
    while At(delim, i) != 0
      invariant i <= |delim| && c !in delim[..i]
      decreases |delim| - i
    {
      if c == delim[i] {
        return true;
      }
      i := i + 1;
    }
    return false;
  }

  /** From p on, the buffer still holds the original string. */
  ghost predicate Holds(buf: seq<Byte>, s: seq<Byte>, p: int) {
    && |buf| == |s| + 1 && buf[|s|] == 0 && 0 <= p <= |s|
    && forall k | p <= k < |s| :: buf[k] == s[k]
  }

  /** The span over leading delimiters; the NUL stops it, since it is no delimiter. */
  method SkipLeading(buf: array<Byte>, delim: seq<Byte>, from: nat, ghost s: seq<Byte>) returns (p: nat)
    requires NulFree(s) && NulFree(delim) && Holds(buf[..], s, from)
    ensures p == SkipDelims(s, Chars(delim), from)
  {
    p := from;
    ghost var d := Chars(delim);
    assert 0 !in d;
    while true
      invariant from <= p <= |s| && SkipDelims(s, d, from) == SkipDelims(s, d, p)
      decreases |s| - p
    {
      assert buf[p] == buf[..][p];
      var hit := IsDelimiter(delim, buf[p]);
      if !hit {
        return;
      }
      p := p + 1;
    }
  }

  /** The scan for the delimiter or NUL that ends a token. */
  method FindEnd(buf: array<Byte>, delim: seq<Byte>, from: nat, ghost s: seq<Byte>) returns (p: nat)
    requires NulFree(s) && NulFree(delim) && Holds(buf[..], s, from)
    ensures p == TokenEnd(s, Chars(delim), from)
  {
    p := from;
    ghost var d := Chars(delim);
    while true
      invariant from <= p <= |s| && TokenEnd(s, d, from) == TokenEnd(s, d, p)
      decreases |s| - p
    {
      assert buf[p] == buf[..][p];
      var hit := IsDelimiter(delim, buf[p]);
      if hit || buf[p] == 0 {
        return;
      }
      p := p + 1;
    }
  }

  /** strtok_r: str if given, else last, says where to go on. It returns the next token of s
      and overwrites the delimiter that ends it, or returns None and changes nothing. */
  method StrTokR(buf: array<Byte>, str: Option<nat>, delim: seq<Byte>, last: Option<nat>, ghost s: seq<Byte>)
    returns (tok: Option<nat>, last': Option<nat>)
    requires NulFree(s) && NulFree(delim)
    requires var from := if str.Some? then str else last; from.Some? ==> Holds(buf[..], s, from.value)
    modifies buf
    ensures var from := if str.Some? then str else last;
      if from.None? || SkipDelims(s, Chars(delim), from.value) == |s| then
        tok == None && last' == None && buf[..] == old(buf[..])
      else
        var q := SkipDelims(s, Chars(delim), from.value);
        var e := TokenEnd(s, Chars(delim), q);
        && tok == Some(q)
        && last' == (if e == |s| then None else Some(e + 1))
        && buf[..] == if e == |s| then old(buf[..]) else old(buf[..])[e := 0]
  {
    var start := if str.Some? then str else last;
    if start.None? {
      return None, None;
    }
    var p := SkipLeading(buf, delim, start.value, s);
    assert buf[p] == buf[..][p];
    if buf[p] == 0 {
      return None, None;
    }
    var e := FindEnd(buf, delim, p + 1, s);
    assert e == TokenEnd(s, Chars(delim), p);
    assert buf[e] == buf[..][e];
    if buf[e] == 0 {
      return Some(p), None;
    }
    buf[e] := 0;
    return Some(p), Some(e + 1);
  }

  /** The buffer once every token end before p has been overwritten. */
  ghost predicate Punched(s: seq<Byte>, d: set<Byte>, buf: seq<Byte>, p: int) {
    && |buf| == |s| + 1 && buf[|s|] == 0
    && forall k {:trigger buf[k]} | 0 <= k < |s| :: buf[k] == if k < p && EndsToken(s, d, k) then 0 else s[k]
  }

  lemma PunchNext(s: seq<Byte>, d: set<Byte>, buf: seq<Byte>, p: nat)
    requires Punched(s, d, buf, p) && IsStart(s, d, p)
    ensures
      var q := SkipDelims(s, d, p);
      var e := TokenEnd(s, d, q);
      if e == |s| then Punched(s, d, buf, |s|) else Punched(s, d, buf[e := 0], e + 1)
  {
    var q := SkipDelims(s, d, p);
    var e := TokenEnd(s, d, q);
    forall k | p <= k < e ensures !EndsToken(s, d, k) {
      assert p < k <= q ==> s[k - 1] in d;
    }
    assert q < e < |s| ==> s[e - 1] !in d;
  }

  /** In the cut buffer, the C string at the start of a token is that token. */
  lemma TokenReadsBack(s: seq<Byte>, d: set<Byte>, buf: seq<Byte>, i: nat, e: nat)
    requires NulFree(s) && Punched(s, d, buf, |s|) && IsToken(s, d, i, e)
    ensures buf[i..e] == s[i..e] && NulFree(buf[i..e]) && buf[e] == 0
  {
    forall k | i <= k < e ensures buf[k] == s[k] {
      assert s[k] !in d;
    }
    assert e < |s| ==> s[e - 1] !in d;
  }

  /** What is left to return after a call: nothing, or the tokens from last on. */
  ghost function Rest(s: seq<Byte>, d: set<Byte>, last: Option<nat>): seq<nat> {
    if last.None? then [] else TokenStarts(s, d, last.value)
  }

  lemma AfterCall(s: seq<Byte>, d: set<Byte>, buf: seq<Byte>, p: nat, q: nat, e: nat)
    requires Punched(s, d, buf, p) && IsStart(s, d, p)
    requires q == SkipDelims(s, d, p) && e == TokenEnd(s, d, q)
    ensures Holds(buf, s, p)
    ensures q == |s| ==> Rest(s, d, Some(p)) == [] && Punched(s, d, buf, |s|)
    ensures q < |s| && e == |s| ==> Rest(s, d, Some(p)) == [q] && Punched(s, d, buf, |s|)
    ensures q < |s| && e < |s| ==>
      && Rest(s, d, Some(p)) == [q] + Rest(s, d, Some(e + 1))
      && IsStart(s, d, e + 1) && Punched(s, d, buf[e := 0], e + 1)
  {
    PunchNext(s, d, buf, p);
    NextStart(s, d, p, q, e);
  }

  /** One more call of strtok_r, seen from the tokens still to come. */
  method NextToken(buf: array<Byte>, str: Option<nat>, delim: seq<Byte>, last: Option<nat>, ghost s: seq<Byte>)
    returns (tok: Option<nat>, last': Option<nat>)
    requires NulFree(s) && NulFree(delim)
    requires var from := if str.Some? then str else last;
      && (from.Some? ==> IsStart(s, Chars(delim), from.value))
      && Punched(s, Chars(delim), buf[..], if from.Some? then from.value else |s|)
    modifies buf
    ensures var from := if str.Some? then str else last;
      Rest(s, Chars(delim), from) == if tok.None? then [] else [tok.value] + Rest(s, Chars(delim), last')
    ensures last'.Some? ==> IsStart(s, Chars(delim), last'.value)
    ensures Punched(s, Chars(delim), buf[..], if last'.Some? then last'.value else |s|)
    ensures tok.None? ==> last'.None?
  {
    ghost var from := if str.Some? then str else last;
    ghost var d := Chars(delim);
    if from.Some? {
      ghost var q := SkipDelims(s, d, from.value);
      AfterCall(s, d, buf[..], from.value, q, TokenEnd(s, d, q));
    }
    tok, last' := StrTokR(buf, str, delim, last, s);
  }

  /** Calling strtok_r until it returns NULL yields the starts of exactly the tokens of the
      original string, in order, and overwrites exactly the delimiters that end one. */
  method TokenizeAll(buf: array<Byte>, delim: seq<Byte>, ghost s: seq<Byte>) returns (starts: seq<nat>)
    requires NulFree(s) && NulFree(delim) && buf[..] == s + [0]
    modifies buf
    ensures starts == TokenStarts(s, Chars(delim), 0)
    ensures Punched(s, Chars(delim), buf[..], |s|)
  {
    ghost var d := Chars(delim);
    starts := [];
    var tok: Option<nat>, last: Option<nat> := NextToken(buf, Some(0), delim, None, s);
    ghost var all := TokenStarts(s, d, 0);
    ghost var left := all;
    while tok.Some?
      invariant left == (if tok.None? then [] else [tok.value] + Rest(s, d, last)) && all == starts + left
      invariant last.Some? ==> IsStart(s, d, last.value)
      invariant Punched(s, d, buf[..], if last.Some? then last.value else |s|)
      invariant tok.None? ==> last.None?
      decreases |left|
    {
      left := left[1..];
      starts := starts + [tok.value];
      tok, last := NextToken(buf, None, delim, last, s);
    }
  }
}
