/** The conversation-history formatter: an ordered list of messages becomes
    one transcript, each message labelled by the parity of its position
    (even positions are the human's turns, odd ones the expert's) and the
    labelled entries joined by newlines. */
module FormatConversationHistory {
  import opened Strings

  datatype Option<T> = None | Some(value: T)

  const HumanLabel: string := "Human: "
  const ExpertLabel: string := "Expert: "
  const Newline: char := '\n'

  /** True when no message holds a line break. */
  predicate NoNewlines(ms: seq<string>) {
    forall i :: 0 <= i < |ms| ==> Newline !in ms[i]
  }

  /** The role label of the message at position `i`. */
  function Label(i: nat): (l: string)
    ensures |l| == 7 + i % 2
    ensures Newline !in l
  {
    if i % 2 == 0 then HumanLabel else ExpertLabel
  }

  /** The entry for the message `m` at position `i`: its label, then the
      message verbatim. */
  function Entry(i: nat, m: string): (r: string)
    ensures StartsWith(r, Label(i)) && r[|Label(i)|..] == m
  {
    Label(i) + m
  }

  /** The labelled entries, position by position, as the `map` callback builds them. */
  function Entries(ms: seq<string>): (r: seq<string>)
    ensures |r| == |ms|
    ensures forall k :: 0 <= k < |ms| ==> r[k] == Entry(k, ms[k])
    decreases |ms|
  {
    if |ms| == 0 then []
    else Entries(ms[..|ms| - 1]) + [Entry(|ms| - 1, ms[|ms| - 1])]
  }

  /** `formatConversationHistory(messages)`. */
  function Format(ms: seq<string>): string {
    Join(Entries(ms), [Newline])
  }

  /** The transcript is empty exactly for the empty history; otherwise it opens
      with the first message as the human's turn and closes with the last
      message's entry, so it has no leading or trailing separator. */
  lemma FormatShape(ms: seq<string>)
    ensures Format(ms) == "" <==> ms == []
    ensures ms != [] ==> StartsWith(Format(ms), HumanLabel + ms[0])
    ensures ms != [] ==> EndsWith(Format(ms), Label(|ms| - 1) + ms[|ms| - 1])
  {
    var es := Entries(ms);
    if |es| > 0 {
      JoinStart(es, [Newline]);
      JoinEnd(es, [Newline]);
    }
  }

  /** One message is formatted as the human's turn, with no separator. */
  lemma FormatSingle(m: string)
    ensures Format([m]) == HumanLabel + m
  {
  }

  /** Appending a message appends a newline and that message's entry. */
  lemma {:induction false} FormatAppend(ms: seq<string>, m: string)
    requires ms != []
    ensures Format(ms + [m]) == Format(ms) + [Newline] + Label(|ms|) + m
  {
    var ms' := ms + [m];
    assert ms'[..|ms'| - 1] == ms;
    var e := Entry(|ms|, m);
    assert Entries(ms') == Entries(ms) + [e];
    JoinAppend(Entries(ms), [Newline], e);
    assert Format(ms') == Format(ms) + [Newline] + e;
  }

  /** Entry `k` opens with the human's label exactly when `k` is even, and with
      the expert's exactly when `k` is odd, whatever the messages say. */
  lemma EntryLabelParity(ms: seq<string>, k: nat)
    requires k < |ms|
    ensures StartsWith(Entries(ms)[k], HumanLabel) <==> k % 2 == 0
    ensures StartsWith(Entries(ms)[k], ExpertLabel) <==> k % 2 == 1
  {
    var e := Entries(ms)[k];
    assert e == Label(k) + ms[k];
    if k % 2 == 0 {
      assert e[..|HumanLabel|] == HumanLabel;
      assert e[0] == 'H' != ExpertLabel[0];
    } else {
      assert e[..|ExpertLabel|] == ExpertLabel;
      assert e[0] == 'E' != HumanLabel[0];
    }
  }

  /** The newlines of the transcript are the n - 1 separators plus those inside messages. */
  lemma NewlineCount(ms: seq<string>)
    requires ms != []
    ensures Occurrences(Format(ms), Newline) == |ms| - 1 + SumOccurrences(ms, Newline)
  {
    var es := Entries(ms);
    JoinOccurrences(es, Newline);
    EntriesNewlines(ms);
  }

  /** Labels add no newlines: the entries hold exactly the messages' newlines. */
  lemma {:induction false} EntriesNewlines(ms: seq<string>)
    ensures SumOccurrences(Entries(ms), Newline) == SumOccurrences(ms, Newline)
    decreases |ms|
  {
    if |ms| > 0 {
      var init := ms[..|ms| - 1];
      var es := Entries(ms);
      assert es[..|es| - 1] == Entries(init);
      EntriesNewlines(init);
      var l := Label(|ms| - 1);
      OccurrencesConcat(l, ms[|ms| - 1], Newline);
      OccurrencesZero(l, Newline);
    }
  }

  /** Splitting the transcript at newlines gives exactly one line per message
      precisely when no message holds a newline; the lines are then the
      entries, in message order. */
  lemma Lines(ms: seq<string>)
    requires ms != []
    ensures |Split(Format(ms), Newline)| == |ms| <==> NoNewlines(ms)
    ensures NoNewlines(ms) ==> Split(Format(ms), Newline) == Entries(ms)
  {
    NewlineCount(ms);
    SumOccurrencesZero(ms, Newline);
    if NoNewlines(ms) {
      var es := Entries(ms);
      forall i | 0 <= i < |es| ensures Newline !in es[i] {
        assert es[i] == Label(i) + ms[i];
      }
      SplitJoin(es, Newline);
    }
  }

  /** The transcript's length: every message, 7 characters for each of the
      human's turns (the even positions), 8 for each of the expert's (the odd
      positions) and one per separator. */
  lemma {:induction false} FormatLength(ms: seq<string>)
    requires ms != []
    ensures |Format(ms)| == SumLengths(ms) + 7 * (|ms| - |ms| / 2) + 8 * (|ms| / 2) + |ms| - 1
    decreases |ms|
  {
    var n := |ms| - 1;
    if n == 0 {
      FormatSingle(ms[0]);
      assert ms[..0] == [];
    } else {
      var init := ms[..n];
      assert init + [ms[n]] == ms;
      FormatAppend(init, ms[n]);
      FormatLength(init);
      assert |Format(ms)| == |Format(init)| + 1 + |Label(n)| + |ms[n]|;
      assert SumLengths(ms) == SumLengths(init) + |ms[n]|;
      assert |Label(n)| == 7 + n % 2;
      assert (n + 1) / 2 == n / 2 + n % 2;
    }
  }

  /** Two messages are the human's turn, a newline, then the expert's turn. */
  lemma FormatTwo(q: string, a: string)
    ensures Format([q, a]) == HumanLabel + q + [Newline] + ExpertLabel + a
  {
    assert [q, a] == [q] + [a];
    FormatAppend([q], a);
    FormatSingle(q);
  }

  /** A message holding a newline can imitate two turns: the transcript of
      one such message equals the transcript of two plain ones. */
  lemma EmbeddedNewlineIsAmbiguous()
    ensures Format(["a\nExpert: b"]) == Format(["a", "b"])
  {
  }

  /** True when every line opens with the label of its position. */
  predicate Labelled(lines: seq<string>) {
    forall k :: 0 <= k < |lines| ==> StartsWith(lines[k], Label(k))
  }

  /** Reads each line's label back off, checking it against the line's position. */
  function Unlabel(lines: seq<string>): Option<seq<string>> {
    if Labelled(lines) then
      Some(seq(|lines|, k requires 0 <= k < |lines| && StartsWith(lines[k], Label(k)) =>
        lines[k][|Label(k)|..]))
    else None
  }

  /** The inverse of `Format` on message lists without newlines. */
  function Parse(t: string): Option<seq<string>> {
    if t == "" then Some([]) else Unlabel(Split(t, Newline))
  }

  /** The labels `Unlabel` reads off are those the entries carry. */
  lemma UnlabelEntries(ms: seq<string>)
    ensures Unlabel(Entries(ms)) == Some(ms)
  {
    var es := Entries(ms);
    forall k | 0 <= k < |es| ensures StartsWith(es[k], Label(k)) && es[k][|Label(k)|..] == ms[k] {
      assert es[k] == Label(k) + ms[k];
    }
    assert Labelled(es);
    var r := Unlabel(es).value;
    assert |r| == |ms|;
    assert forall k :: 0 <= k < |r| ==> r[k] == ms[k];
    assert r == ms;
  }

  /** What `Unlabel` accepts is exactly a list of entries. */
  lemma UnlabelSound(lines: seq<string>, ms: seq<string>)
    requires Unlabel(lines) == Some(ms)
    ensures Entries(ms) == lines
  {
    assert Labelled(lines);
    assert |ms| == |lines|;
    var es := Entries(ms);
    forall k | 0 <= k < |lines| ensures es[k] == lines[k] {
      var l := Label(k);
      var line := lines[k];
      assert StartsWith(line, l);
      assert ms[k] == line[|l|..];
      assert line == line[..|l|] + line[|l|..];
    }
  }

  /** Parsing a transcript of newline-free messages gives the messages back. */
  lemma ParseFormat(ms: seq<string>)
    requires NoNewlines(ms)
    ensures Parse(Format(ms)) == Some(ms)
  {
    if ms != [] {
      Lines(ms);
      UnlabelEntries(ms);
    }
  }

  /** Whatever `Parse` accepts is a transcript of newline-free messages, and
      formatting those messages rebuilds it. */
  lemma FormatParse(t: string, ms: seq<string>)
    requires Parse(t) == Some(ms)
    ensures NoNewlines(ms)
    ensures Format(ms) == t
  {
    if t != "" {
      var lines := Split(t, Newline);
      UnlabelSound(lines, ms);
      JoinSplit(t, Newline);
      forall i | 0 <= i < |ms| ensures Newline !in ms[i] {
        assert lines[i] == Label(i) + ms[i];
      }
    }
  }

  /** Distinct newline-free histories have distinct transcripts. */
  lemma FormatInjective(a: seq<string>, b: seq<string>)
    requires NoNewlines(a) && NoNewlines(b)
    requires Format(a) == Format(b)
    ensures a == b
  {
    ParseFormat(a);
    ParseFormat(b);
  }
}
