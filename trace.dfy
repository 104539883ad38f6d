/**
 * The protocol trace: every line received from or sent to a client is
 * appended, with a direction tag and its surrounding line breaks removed, to
 * one process-wide list of log lines.
 */
module Trace {

  predicate IsLineBreak(c: char) {
    c == '\n' || c == '\r'
  }

  predicate AllLineBreaks(s: string) {
    forall k :: 0 <= k < |s| ==> IsLineBreak(s[k])
  }

  /** The number of line-break characters at the start of `s`. */
  function LeadingBreaks(s: string): (n: nat)
    ensures n <= |s|
    ensures forall k :: 0 <= k < n ==> IsLineBreak(s[k])
    ensures n < |s| ==> !IsLineBreak(s[n])
  {
    if s == [] || !IsLineBreak(s[0]) then 0
    else
      var rest := s[1..];
      var n := 1 + LeadingBreaks(rest);
      assert forall k :: 1 <= k < n ==> s[k] == rest[k - 1];
      n
  }

  /** The number of line-break characters at the end of `s`. */
  function TrailingBreaks(s: string): (n: nat)
    ensures n <= |s|
    ensures forall k :: |s| - n <= k < |s| ==> IsLineBreak(s[k])
    ensures n < |s| ==> !IsLineBreak(s[|s| - n - 1])
  {
    if s == [] || !IsLineBreak(s[|s| - 1]) then 0
    else
      var init := s[..|s| - 1];
      var n := 1 + TrailingBreaks(init);
      assert forall k :: |s| - n <= k < |s| - 1 ==> s[k] == init[k];
      n
  }

  /**
   * The line with every leading and trailing '\n' and '\r' removed, as
   * Python's `str.strip("\n\r")` does; interior characters are kept.
   */
  function StripLineBreaks(s: string): (r: string)
    ensures LeadingBreaks(s) + |r| <= |s|
    ensures r == s[LeadingBreaks(s)..LeadingBreaks(s) + |r|]
    ensures AllLineBreaks(s[..LeadingBreaks(s)])
    ensures AllLineBreaks(s[LeadingBreaks(s) + |r|..])
    ensures |r| > 0 ==> !IsLineBreak(r[0]) && !IsLineBreak(r[|r| - 1])
  {
    var t := s[LeadingBreaks(s)..];
    var r := t[..|t| - TrailingBreaks(t)];
    assert s[LeadingBreaks(s) + |r|..] == t[|t| - TrailingBreaks(t)..];
    r
  }

  /** Line breaks in front of a line add to its leading count. */
  lemma {:induction false} LeadingBreaksPrefix(p: string, rest: string)
    requires AllLineBreaks(p)
    ensures LeadingBreaks(p + rest) == |p| + LeadingBreaks(rest)
  {
    if p != [] {
      assert (p + rest)[0] == p[0] && IsLineBreak(p[0]);
      assert (p + rest)[1..] == p[1..] + rest;
      assert AllLineBreaks(p[1..]) by {
        assert forall k :: 0 <= k < |p| - 1 ==> p[1..][k] == p[k + 1];
      }
      LeadingBreaksPrefix(p[1..], rest);
    } else {
      assert p + rest == rest;
    }
  }

  /** Line breaks after a line add to its trailing count. */
  lemma {:induction false} TrailingBreaksSuffix(rest: string, q: string)
    requires AllLineBreaks(q)
    ensures TrailingBreaks(rest + q) == TrailingBreaks(rest) + |q|
  {
    if q != [] {
      var init := q[..|q| - 1];
      assert (rest + q)[|rest + q| - 1] == q[|q| - 1] && IsLineBreak(q[|q| - 1]);
      assert (rest + q)[..|rest + q| - 1] == rest + init;
      assert AllLineBreaks(init) by {
        assert forall k :: 0 <= k < |init| ==> init[k] == q[k];
      }
      TrailingBreaksSuffix(rest, init);
    } else {
      assert rest + q == rest;
    }
  }

  /**
   * Stripping is determined by its result: any line made of line breaks, a
   * middle that neither starts nor ends with one, and line breaks again,
   * strips to exactly that middle.
   */
  lemma StripLineBreaksUnique(p: string, m: string, q: string)
    requires AllLineBreaks(p) && AllLineBreaks(q)
    requires |m| > 0 ==> !IsLineBreak(m[0]) && !IsLineBreak(m[|m| - 1])
    ensures StripLineBreaks(p + m + q) == m
  {
    var s := p + m + q;
    assert s == p + (m + q);
    LeadingBreaksPrefix(p, m + q);
    if |m| == 0 {
      assert m + q == q;
      LeadingBreaksPrefix(q, "");
      assert q + "" == q;
    } else {
      assert LeadingBreaks(m + q) == 0;
      var t := s[|p|..];
      assert t == m + q;
      TrailingBreaksSuffix(m, q);
      assert t[..|t| - |q|] == m;
    }
  }

  lemma StripLineBreaksIdempotent(s: string)
    ensures StripLineBreaks(StripLineBreaks(s)) == StripLineBreaks(s)
  {
    var r := StripLineBreaks(s);
    StripLineBreaksUnique("", r, "");
    assert "" + r + "" == r;
  }

  /** Which way a traced line travelled: from the client, or to it. */
  datatype Direction = Incoming | Outgoing

  function Tag(d: Direction): string {
    match d
    case Incoming => "C: "
    case Outgoing => "S: "
  }

  /** The log line recorded for `line` travelling in direction `d`. */
  function Entry(d: Direction, line: string): string {
    Tag(d) + StripLineBreaks(line)
  }

  /**
   * A log line shows its direction and the stripped line: two log lines are
   * equal exactly when both their directions and their stripped lines are.
   */
  lemma EntryDetermines(d1: Direction, line1: string, d2: Direction, line2: string)
    ensures Entry(d1, line1) == Entry(d2, line2)
        <==> d1 == d2 && StripLineBreaks(line1) == StripLineBreaks(line2)
  {
    var e1, e2 := Entry(d1, line1), Entry(d2, line2);
    if e1 == e2 {
      assert e1[0] == e2[0];
      assert e1[3..] == StripLineBreaks(line1) && e2[3..] == StripLineBreaks(line2);
    }
  }

  /** The process-wide message log and the GUI refreshes it triggers. */
  class MessageLog {
    var lines: seq<string>
    /** One per change notification sent to the GUI. */
    ghost var notifications: nat

    constructor ()
      ensures lines == [] && notifications == 0
    {
      lines := [];
      notifications := 0;
    }

    /** Records a line received from the client. */
    method IncomingLine(line: string)
      modifies this
      ensures lines == old(lines) + [Entry(Incoming, line)]
      ensures notifications == old(notifications) + 1
    {
      lines := lines + ["C: " + StripLineBreaks(line)];
      notifications := notifications + 1;
    }

    /** Records a line sent to the client. */
    method OutgoingLine(line: string)
      modifies this
      ensures lines == old(lines) + [Entry(Outgoing, line)]
      ensures notifications == old(notifications) + 1
    {
      lines := lines + ["S: " + StripLineBreaks(line)];
      notifications := notifications + 1;
    }
  }
}
