/** splitString: a line cut at a delimiter. */
module Tokenizer {

  /** find_first_not_of, with |s| for npos. */
  function FindNot(s: string, d: char, from: nat): (r: nat)
    requires from <= |s|
    ensures from <= r <= |s|
    ensures forall i | from <= i < r :: s[i] == d
    ensures r < |s| ==> s[r] != d
    decreases |s| - from
  {
    if from < |s| && s[from] == d then FindNot(s, d, from + 1) else from
  }

  /** find, with |s| for npos. */
  function Find(s: string, d: char, from: nat): (r: nat)
    requires from <= |s|
    ensures from <= r <= |s|
    ensures forall i | from <= i < r :: s[i] != d
    ensures r < |s| ==> s[r] == d
    decreases |s| - from
  {
    if from < |s| && s[from] != d then Find(s, d, from + 1) else from
  }

  function Tokens(s: string, d: char): (ts: seq<string>)
    ensures forall t | t in ts :: t != "" && d !in t
    decreases |s|
  {
    if s == "" then []
    else if s[0] == d then Tokens(s[1..], d)
    else
      var n := Find(s, d, 0);
      [s[..n]] + Tokens(s[n..], d)
  }

  datatype Span = Span(lo: nat, hi: nat)

  /** A maximal stretch without the delimiter. */
  predicate IsRun(s: string, d: char, r: Span) {
    && r.lo < r.hi <= |s|
    && (forall i | r.lo <= i < r.hi :: s[i] != d)
    && (r.lo == 0 || s[r.lo - 1] == d)
    && (r.hi == |s| || s[r.hi] == d)
  }

  /** These are the runs that start before end, in order, and these the tokens. */
  ghost predicate RunsBefore(s: string, d: char, end: nat, runs: seq<Span>, out: seq<string>) {
    && |runs| == |out|
    && (forall k | 0 <= k < |runs| :: IsRun(s, d, runs[k]) && runs[k].hi <= end && out[k] == s[runs[k].lo..runs[k].hi])
    && (forall j, k | 0 <= j < k < |runs| :: runs[j].hi < runs[k].lo)
    && (forall r | IsRun(s, d, r) && r.lo < end :: r in runs)
  }

  /** Exactly the maximal delimiter-free runs, in order. */
  method SplitString(str: string, delim: char) returns (out: seq<string>, ghost runs: seq<Span>)
    ensures RunsBefore(str, delim, |str|, runs, out)
    ensures out == Tokens(str, delim)
  {
    out, runs := [], [];
    var end := 0;
    var start := FindNot(str, delim, end);
    assert str[0..] == str;
    while start < |str|
      invariant end <= |str| && start == FindNot(str, delim, end)
      invariant end == 0 || end == |str| || str[end] == delim
      invariant RunsBefore(str, delim, end, runs, out)
      invariant Tokens(str, delim) == out + Tokens(str[end..], delim)
      decreases |str| - end
    {
      ghost var end0 := end;
      end := Find(str, delim, start);
      RunsGrow(str, delim, end0, start, end, runs, out);
      TokenAfter(str, delim, end0, start, end, out);
      out, runs := out + [str[start..end]], runs + [Span(start, end)];
      start := FindNot(str, delim, end);
    }
    TokenAt(str, delim, end, start, |str|);
    RunsDone(str, delim, end, runs, out);
  }

  lemma TokenAfter(s: string, d: char, end0: nat, start: nat, end: nat, out: seq<string>)
    requires end0 <= start < end <= |s| && start == FindNot(s, d, end0) && end == Find(s, d, start)
    ensures out + Tokens(s[end0..], d) == out + [s[start..end]] + Tokens(s[end..], d)
  {
    TokenAt(s, d, end0, start, end);
  }

  lemma RunsDone(s: string, d: char, end: nat, runs: seq<Span>, out: seq<string>)
    requires end <= |s| && FindNot(s, d, end) == |s| && RunsBefore(s, d, end, runs, out)
    ensures RunsBefore(s, d, |s|, runs, out)
  {
    forall r | IsRun(s, d, r) ensures r in runs { assert s[r.lo] != d; }
  }

  lemma RunsGrow(s: string, d: char, end0: nat, start: nat, end: nat, runs: seq<Span>, out: seq<string>)
    requires end0 <= start < end <= |s| && start == FindNot(s, d, end0) && end == Find(s, d, start)
    requires end0 == 0 || end0 == |s| || s[end0] == d
    requires RunsBefore(s, d, end0, runs, out)
    ensures RunsBefore(s, d, end, runs + [Span(start, end)], out + [s[start..end]])
  {
    var span := Span(start, end);
    forall r | IsRun(s, d, r) && r.lo < end ensures r in runs + [span] {
      if r.lo >= end0 {
        assert s[r.lo] != d;
        assert r.lo == start;
        assert r.hi == end;
      } else {
        assert r in runs;
      }
    }
    forall j, k | 0 <= j < k < |runs + [span]| ensures (runs + [span])[j].hi < (runs + [span])[k].lo {
      if k == |runs| { assert runs[j].hi <= end0; }
    }
  }

  lemma {:induction false} SkipDelims(s: string, d: char, lo: nat, hi: nat)
    requires lo <= hi <= |s| && forall i | lo <= i < hi :: s[i] == d
    ensures Tokens(s[lo..], d) == Tokens(s[hi..], d)
    decreases hi - lo
  {
    if lo < hi {
      SkipDelims(s, d, lo + 1, hi);
      assert s[lo..][1..] == s[lo + 1..];
    }
  }

  lemma {:induction false} FindIs(s: string, d: char, from: nat, r: nat)
    requires from <= r <= |s| && (forall i | from <= i < r :: s[i] != d) && (r < |s| ==> s[r] == d)
    ensures Find(s, d, from) == r
  {
  }

  lemma TokenAt(s: string, d: char, end0: nat, start: nat, end: nat)
    requires end0 <= start <= end <= |s| && start == FindNot(s, d, end0)
    requires start == |s| || end == Find(s, d, start)
    ensures Tokens(s[end0..], d) == if start == |s| then [] else [s[start..end]] + Tokens(s[end..], d)
  {
    SkipDelims(s, d, end0, start);
    if start < |s| {
      FindIs(s[start..], d, 0, end - start);
      assert s[start..][..end - start] == s[start..end];
      assert s[start..][end - start..] == s[end..];
    }
  }

  // ---- laws ----

  lemma TokenFirst(t: string, rest: string, d: char)
    requires t != "" && d !in t && (rest == "" || rest[0] == d)
    ensures Tokens(t + rest, d) == [t] + Tokens(rest, d)
  {
    FindIs(t + rest, d, 0, |t|);
    assert (t + rest)[..|t|] == t && (t + rest)[|t|..] == rest;
  }

  /** Splitting at a delimiter first changes nothing. */
  lemma {:induction false} TokensConcat(s: string, t: string, d: char)
    ensures Tokens(s + [d] + t, d) == Tokens(s, d) + Tokens(t, d)
    decreases |s|
  {
    var all := s + [d] + t;
    if s == "" {
      assert all[1..] == t;
    } else if s[0] == d {
      TokensConcat(s[1..], t, d);
      assert all[1..] == s[1..] + [d] + t;
    } else {
      var n := Find(s, d, 0);
      TokensConcat(s[n..], t, d);
      var rest := s[n..] + [d] + t;
      assert all == s[..n] + rest;
      TokenFirst(s[..n], rest, d);
      TokenFirst(s[..n], s[n..], d);
      assert s == s[..n] + s[n..];
      assert [s[..n]] + (Tokens(s[n..], d) + Tokens(t, d)) == [s[..n]] + Tokens(s[n..], d) + Tokens(t, d);
    }
  }

  function Delims(d: char, n: nat): (r: string)
    ensures |r| == n
  {
    seq(n, _ => d)
  }

  ghost predicate GoodGaps(tokens: seq<string>, gaps: seq<nat>) {
    |gaps| == |tokens| + 1 && forall i | 0 < i < |tokens| :: gaps[i] > 0
  }

  /** The tokens with gaps[i] delimiters before the i-th and the last gap after. */
  function Render(tokens: seq<string>, gaps: seq<nat>, d: char): string
    requires |gaps| == |tokens| + 1
  {
    Delims(d, gaps[0]) + if tokens == [] then "" else tokens[0] + Render(tokens[1..], gaps[1..], d)
  }

  /** Splitting gives back any tokens joined by any delimiter runs. */
  lemma {:induction false} SplitRender(tokens: seq<string>, gaps: seq<nat>, d: char)
    requires GoodGaps(tokens, gaps) && forall t | t in tokens :: t != "" && d !in t
    ensures Tokens(Render(tokens, gaps, d), d) == tokens
  {
    var line := Render(tokens, gaps, d);
    SkipDelims(line, d, 0, gaps[0]);
    assert line[0..] == line;
    if tokens == [] {
      assert line[gaps[0]..] == "";
    } else {
      var rest := Render(tokens[1..], gaps[1..], d);
      assert line[gaps[0]..] == tokens[0] + rest;
      assert tokens[0] in tokens && forall t | t in tokens[1..] :: t in tokens;
      assert forall i | 0 < i < |tokens[1..]| :: gaps[1..][i] == gaps[i + 1];
      if |tokens| > 1 { assert gaps[1] > 0; } else { assert rest == Delims(d, gaps[1]); }
      TokenFirst(tokens[0], rest, d);
      SplitRender(tokens[1..], gaps[1..], d);
    }
  }

  lemma RenderMoreDelims(tokens: seq<string>, gaps: seq<nat>, d: char)
    requires |gaps| == |tokens| + 1
    ensures Render(tokens, gaps[0 := gaps[0] + 1], d) == [d] + Render(tokens, gaps, d)
  {
    var more := gaps[0 := gaps[0] + 1];
    assert more[1..] == gaps[1..];
    var tail := if tokens == [] then "" else tokens[0] + Render(tokens[1..], gaps[1..], d);
    assert Delims(d, more[0]) + tail == [d] + (Delims(d, gaps[0]) + tail);
  }

  lemma RenderFirst(t: string, tokens: seq<string>, gaps: seq<nat>, d: char)
    requires GoodGaps(tokens, gaps) && (tokens != [] ==> gaps[0] > 0)
    ensures GoodGaps([t] + tokens, [0] + gaps)
    ensures Render([t] + tokens, [0] + gaps, d) == t + Render(tokens, gaps, d)
  {
    var ts, gs := [t] + tokens, [0] + gaps;
    assert ts[1..] == tokens && gs[1..] == gaps;
    assert Delims(d, gs[0]) + (t + Render(tokens, gaps, d)) == t + Render(tokens, gaps, d);
  }

  lemma DelimFirst(s: string, d: char, gaps: seq<nat>)
    requires s != "" && s[0] == d && GoodGaps(Tokens(s[1..], d), gaps) && Render(Tokens(s[1..], d), gaps, d) == s[1..]
    ensures GoodGaps(Tokens(s, d), gaps[0 := gaps[0] + 1]) && Render(Tokens(s, d), gaps[0 := gaps[0] + 1], d) == s
  {
    RenderMoreDelims(Tokens(s[1..], d), gaps, d);
    assert s == [d] + s[1..];
  }

  /** And every line is such a rendering of its tokens. */
  lemma {:induction false} RenderSplit(s: string, d: char) returns (gaps: seq<nat>)
    ensures GoodGaps(Tokens(s, d), gaps) && Render(Tokens(s, d), gaps, d) == s
    ensures s != "" && s[0] == d ==> gaps[0] > 0
    decreases |s|
  {
    if s == "" {
      gaps := [0];
    } else if s[0] == d {
      var more := RenderSplit(s[1..], d);
      DelimFirst(s, d, more);
      gaps := more[0 := more[0] + 1];
    } else {
      var n := Find(s, d, 0);
      var more := RenderSplit(s[n..], d);
      RenderFirst(s[..n], Tokens(s[n..], d), more, d);
      gaps := [0] + more;
      assert s == s[..n] + s[n..];
    }
  }
}
