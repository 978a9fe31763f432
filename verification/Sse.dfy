/** The pass-through watcher that reassembles server-sent events (tooldefs/sse.go). Characters stand
    for bytes. */
module Sse {

  /** `events` and `overflows` record the callbacks made so far. */
  datatype Watcher = Watcher(max: nat, line: string, event: string, stopped: bool, events: seq<string>, overflows: nat)

  function Start(max: nat): Watcher {
    Watcher(max, "", "", false, [], 0)
  }

  // ---------------------------------------------------------------- one line

  function TrimCR(line: string): string {
    if line != "" && line[|line| - 1] == '\r' then line[..|line| - 1] else line
  }

  function TrimSpace(s: string): string {
    if s != "" && s[0] == ' ' then s[1..] else s
  }

  function Overflow(w: Watcher): Watcher {
    w.(stopped := true, line := "", event := "", overflows := w.overflows + 1)
  }

  /** Consumes one complete line: a blank one dispatches, a data line accumulates. */
  function Feed(w: Watcher, line: string): (w': Watcher)
    ensures !w.stopped && w'.stopped ==> w' == Overflow(w)
  {
    if line == "" then
      if w.event != "" then w.(event := "", events := w.events + [w.event]) else w
    else if !("data:" <= line) then w
    else
      var joined := w.event + (if w.event != "" then "\n" else "") + TrimSpace(line[5..]);
      var v := w.(event := joined);
      if |joined| > w.max then Overflow(v) else v
  }

  // ---------------------------------------------------------------- a chunk at a time

  /** What one byte does, before the length of an unfinished line is checked. */
  function Eat(w: Watcher, c: char): Watcher {
    if w.stopped then w
    else if c == '\n' then Feed(w, TrimCR(w.line)).(line := "")
    else w.(line := w.line + [c])
  }

  function EatAll(w: Watcher, b: string): Watcher {
    if b == "" then w else Eat(EatAll(w, b[..|b| - 1]), b[|b| - 1])
  }

  /** At the end of a chunk an unfinished line that is too long stops the watching. */
  function CheckLine(w: Watcher): Watcher {
    if !w.stopped && |w.line| > w.max then Overflow(w) else w
  }

  function Scan(w: Watcher, chunk: string): Watcher {
    if w.stopped then w else CheckLine(EatAll(w, chunk))
  }

  function ScanAll(max: nat, chunks: seq<string>): Watcher {
    if chunks == [] then Start(max) else Scan(ScanAll(max, chunks[..|chunks| - 1]), chunks[|chunks| - 1])
  }

  function Flatten(chunks: seq<string>): string {
    if chunks == [] then "" else Flatten(chunks[..|chunks| - 1]) + chunks[|chunks| - 1]
  }

  lemma {:induction false} EatAllConcat(w: Watcher, a: string, b: string)
    ensures EatAll(w, a + b) == EatAll(EatAll(w, a), b)
  {
    if b == "" {
      assert a + b == a;
    } else {
      assert (a + b)[..|a + b| - 1] == a + b[..|b| - 1];
      EatAllConcat(w, a, b[..|b| - 1]);
    }
  }

  lemma {:induction false} EatWithinLine(w: Watcher, b: string)
    requires !w.stopped && '\n' !in b
    ensures EatAll(w, b) == w.(line := w.line + b)
  {
    if b == "" {
      assert w.line + b == w.line;
    } else {
      EatWithinLine(w, b[..|b| - 1]);
      assert b == b[..|b| - 1] + [b[|b| - 1]];
    }
  }

  lemma {:induction false} StoppedStays(w: Watcher, b: string)
    requires w.stopped
    ensures EatAll(w, b) == w
  {
    if b != "" {
      StoppedStays(w, b[..|b| - 1]);
    }
  }

  lemma SplitAt(b: string, i: nat)
    requires i < |b|
    ensures b == (b[..i] + [b[i]]) + b[i + 1..] && b[..i + 1] == b[..i] + [b[i]] && b == b[..i + 1] + b[i + 1..]
  {
  }

  lemma EatSnoc(w: Watcher, b: string, c: char)
    ensures EatAll(w, b + [c]) == Eat(EatAll(w, b), c)
  {
  }

  /** Eating up to and including the first newline feeds the line it ends. */
  lemma EatFirstLine(w: Watcher, b: string, i: nat)
    requires !w.stopped && i < |b| && b[i] == '\n' && '\n' !in b[..i]
    ensures EatAll(w, b) == EatAll(Feed(w.(line := w.line + b[..i]), TrimCR(w.line + b[..i])).(line := ""), b[i + 1..])
  {
    EatWithinLine(w, b[..i]);
    EatSnoc(w, b[..i], '\n');
    SplitAt(b, i);
    EatAllConcat(w, b[..i] + ['\n'], b[i + 1..]);
  }

  function IndexOf(b: string, c: char): (i: int)
    ensures -1 <= i < |b|
    ensures i < 0 ==> c !in b
    ensures i >= 0 ==> b[i] == c && c !in b[..i]
  {
    if b == "" then -1
    else if b[0] == c then 0
    else
      var i := IndexOf(b[1..], c);
      assert b == [b[0]] + b[1..];
      assert i >= 0 ==> b[..i + 1] == [b[0]] + b[1..][..i];
      if i < 0 then -1 else i + 1
  }

  class SseWatcher {
    const max: nat
    var line: string
    var event: string
    var stopped: bool
    var events: seq<string>
    var overflows: nat

    function View(): Watcher
      reads this
    {
      Watcher(max, line, event, stopped, events, overflows)
    }

    constructor (max: nat)
      ensures View() == Start(max)
    {
      this.max := max;
      line, event, stopped, events, overflows := "", "", false, [], 0;
    }

    method OverflowNow()
      modifies this
      ensures View() == Overflow(old(View()))
    {
      stopped := true;
      line := "";
      event := "";
      overflows := overflows + 1;
    }

    method FeedLine(l: string)
      modifies this
      ensures View() == Feed(old(View()), l)
    {
      if |l| == 0 {
        if |event| > 0 {
          var data := event;
          event := "";
          events := events + [data];
        }
        return;
      }
      if !("data:" <= l) {
        return;
      }
      if |event| > 0 {
        event := event + "\n";
      }
      event := event + TrimSpace(l[5..]);
      if |event| > max {
        OverflowNow();
      }
    }

    /** One read: the line by line loop does what the chunk does byte by byte. */
    method Read(chunk: string)
      requires !stopped ==> |line| <= max
      modifies this
      ensures View() == Scan(old(View()), chunk)
      ensures !stopped ==> |line| <= max
    {
      if |chunk| == 0 || stopped {
        return;
      }
      var b := chunk;
      while |b| > 0
        invariant !stopped
        invariant EatAll(View(), b) == EatAll(old(View()), chunk)
        invariant |b| == 0 ==> line == ""
        decreases |b|
      {
        var i := IndexOf(b, '\n');
        if i < 0 {
          EatWithinLine(View(), b);
          line := line + b;
          if |line| > max {
            OverflowNow();
          }
          return;
        }
        EatFirstLine(View(), b, i);
        line := line + b[..i];
        FeedLine(TrimCR(line));
        line := "";
        b := b[i + 1..];
        if stopped {
          StoppedStays(View(), b);
          return;
        }
      }
    }
  }

  // ---------------------------------------------------------------- the whole stream at once

  /** The lines a stream has completed, without their terminators. */
  function Lines(s: string): seq<string> {
    var i := IndexOf(s, '\n');
    if i < 0 then [] else [s[..i]] + Lines(s[i + 1..])
  }

  /** What follows the last complete line. */
  function Remainder(s: string): string {
    var i := IndexOf(s, '\n');
    if i < 0 then s else Remainder(s[i + 1..])
  }

  function FeedLines(w: Watcher, lines: seq<string>): Watcher
    decreases |lines|
  {
    if lines == [] || w.stopped then w else FeedLines(Feed(w, TrimCR(lines[0])), lines[1..])
  }

  /** The one-shot parser: split into lines, feed them, look at what is left over. */
  function OneShot(max: nat, s: string): Watcher {
    var w := FeedLines(Start(max), Lines(s));
    if w.stopped then w else CheckLine(w.(line := Remainder(s)))
  }

  lemma FirstLine(s: string, i: nat)
    requires i == IndexOf(s, '\n')
    ensures Lines(s) != [] && Lines(s)[0] == s[..i] && Lines(s)[1..] == Lines(s[i + 1..]) && Remainder(s) == Remainder(s[i + 1..])
  {
  }

  lemma EmptyPlus(s: string)
    ensures "" + s == s
  {
  }

  lemma {:induction false} EatAllByLines(w: Watcher, s: string)
    requires w.line == "" && !w.stopped
    ensures var v := FeedLines(w, Lines(s));
            EatAll(w, s) == if v.stopped then v else v.(line := Remainder(s))
    decreases |s|
  {
    var i := IndexOf(s, '\n');
    if i < 0 {
      EatWithinLine(w, s);
      EmptyPlus(s);
    } else {
      EatFirstLine(w, s, i);
      EmptyPlus(s[..i]);
      var v := Feed(w, TrimCR(s[..i]));
      FeedIgnoresLine(w, s[..i], TrimCR(s[..i]));
      FirstLine(s, i);
      if v.stopped {
        StoppedStays(v, s[i + 1..]);
      } else {
        EatAllByLines(v, s[i + 1..]);
      }
    }
  }

  lemma FeedIgnoresLine(w: Watcher, l: string, line: string)
    requires w.line == "" && !w.stopped
    ensures Feed(w.(line := l), line).(line := "") == Feed(w, line) && Feed(w, line).line == ""
  {
  }

  lemma OneShotIsOneChunk(max: nat, s: string)
    ensures OneShot(max, s) == CheckLine(EatAll(Start(max), s))
  {
    EatAllByLines(Start(max), s);
  }

  // ---------------------------------------------------------------- what the lines say

  function Unlines(lines: seq<string>): string {
    if lines == [] then "" else lines[0] + "\n" + Unlines(lines[1..])
  }

  lemma FirstLineJoins(s: string, i: nat, rest: string, lines: seq<string>, tail: string)
    requires i < |s| && s[i] == '\n' && rest == s[i + 1..] && Unlines(lines) + tail == rest
    ensures Unlines([s[..i]] + lines) + tail == s
  {
    assert ([s[..i]] + lines)[1..] == lines;
    assert (s[..i] + "\n" + Unlines(lines)) + tail == s[..i] + "\n" + (Unlines(lines) + tail);
    SplitAt(s, i);
  }

  lemma {:induction false} LinesJoin(s: string)
    ensures Unlines(Lines(s)) + Remainder(s) == s
    decreases |s|
  {
    var i := IndexOf(s, '\n');
    if i >= 0 {
      var rest := s[i + 1..];
      LinesJoin(rest);
      FirstLineJoins(s, i, rest, Lines(rest), Remainder(rest));
    } else {
      assert "" + s == s;
    }
  }

  /** Lines and remainder are the stream, cut at its newlines and nowhere else. */
  lemma {:induction false} LinesAreTheStream(s: string)
    ensures Unlines(Lines(s)) + Remainder(s) == s
    ensures '\n' !in Remainder(s) && forall k :: 0 <= k < |Lines(s)| ==> '\n' !in Lines(s)[k]
    decreases |s|
  {
    LinesJoin(s);
    var i := IndexOf(s, '\n');
    if i >= 0 {
      LinesAreTheStream(s[i + 1..]);
    }
  }

  /** The lines after the last blank one. */
  function SinceBlank(lines: seq<string>): seq<string> {
    if lines == [] || lines[|lines| - 1] == "" then []
    else SinceBlank(lines[..|lines| - 1]) + [lines[|lines| - 1]]
  }

  /** The values of the data fields among the lines. */
  function Fields(lines: seq<string>): seq<string> {
    if lines == [] then []
    else
      var l, before := lines[|lines| - 1], Fields(lines[..|lines| - 1]);
      if "data:" <= l then before + [if "data: " <= l then l[6..] else l[5..]] else before
  }

  function DropEmpty(fields: seq<string>): seq<string> {
    if fields != [] && fields[0] == "" then DropEmpty(fields[1..]) else fields
  }

  function JoinFields(fields: seq<string>): string {
    if fields == [] then ""
    else if |fields| == 1 then fields[0]
    else JoinFields(fields[..|fields| - 1]) + "\n" + fields[|fields| - 1]
  }

  /** The event in the making: the data fields since the last blank line, one to a line, where empty
      ones before the first that is not are left out. */
  function TextOf(lines: seq<string>): string {
    JoinFields(DropEmpty(Fields(SinceBlank(lines))))
  }

  /** Every blank line ends an event, unless there is nothing in it. */
  function EventsOf(lines: seq<string>): seq<string> {
    if lines == [] then []
    else
      var before := lines[..|lines| - 1];
      if lines[|lines| - 1] == "" && TextOf(before) != "" then EventsOf(before) + [TextOf(before)] else EventsOf(before)
  }

  /** A data line makes its event too long. */
  predicate TooBig(max: nat, lines: seq<string>, n: nat) {
    n < |lines| && "data:" <= lines[n] && |TextOf(lines[..n + 1])| > max
  }

  lemma {:induction false} DropSnoc(fields: seq<string>, f: string)
    ensures DropEmpty(fields + [f]) == if DropEmpty(fields) == [] then DropEmpty([f]) else DropEmpty(fields) + [f]
    ensures DropEmpty(fields) != [] ==> DropEmpty(fields)[0] != ""
    decreases |fields|
  {
    if fields == [] {
      assert fields + [f] == [f];
    } else if fields[0] == "" {
      assert (fields + [f])[1..] == fields[1..] + [f];
      DropSnoc(fields[1..], f);
    }
  }

  lemma {:induction false} JoinIsEmpty(fields: seq<string>)
    requires fields != [] ==> fields[0] != ""
    ensures JoinFields(fields) == "" <==> fields == []
  {
    if |fields| > 1 {
      assert |JoinFields(fields)| > 0;
    }
  }

  /** One more field goes on a line of its own, or starts the text. */
  lemma JoinSnoc(fields: seq<string>, f: string)
    ensures var t := JoinFields(DropEmpty(fields));
            JoinFields(DropEmpty(fields + [f])) == t + (if t != "" then "\n" else "") + f
  {
    DropSnoc(fields, f);
    var d := DropEmpty(fields);
    JoinIsEmpty(d);
    if d == [] {
      assert "" + "" + f == f;
      assert DropEmpty([f]) == if f == "" then [] else [f];
    } else {
      assert (d + [f])[..|d|] == d;
    }
  }

  /** What the watcher holds after these lines, if nothing has grown too long. */
  function Holding(max: nat, lines: seq<string>): Watcher {
    Watcher(max, "", TextOf(lines), false, EventsOf(lines), 0)
  }

  lemma SinceBlankSnoc(lines: seq<string>, l: string)
    ensures SinceBlank(lines + [l]) == if l == "" then [] else SinceBlank(lines) + [l]
  {
    assert (lines + [l])[..|lines|] == lines;
  }

  lemma FieldsSnoc(lines: seq<string>, l: string)
    ensures Fields(lines + [l]) == if "data:" <= l then Fields(lines) + [TrimSpace(l[5..])] else Fields(lines)
  {
    assert (lines + [l])[..|lines|] == lines;
    if "data:" <= l {
      FieldValue(l);
    }
  }

  lemma TextSnoc(lines: seq<string>, l: string)
    ensures var t := TextOf(lines);
            TextOf(lines + [l]) == if l == "" then ""
                                   else if "data:" <= l then t + (if t != "" then "\n" else "") + TrimSpace(l[5..])
                                   else t
  {
    var open := SinceBlank(lines);
    SinceBlankSnoc(lines, l);
    FieldsSnoc(open, l);
    if "data:" <= l {
      JoinSnoc(Fields(open), TrimSpace(l[5..]));
    }
  }

  lemma EventsSnoc(lines: seq<string>, l: string)
    ensures EventsOf(lines + [l]) == if l == "" && TextOf(lines) != "" then EventsOf(lines) + [TextOf(lines)] else EventsOf(lines)
  {
    assert (lines + [l])[..|lines|] == lines;
  }

  lemma FeedHolds(max: nat, lines: seq<string>, l: string)
    ensures var all := lines + [l];
            Feed(Holding(max, lines), l)
            == if TooBig(max, all, |lines|) then Watcher(max, "", "", true, EventsOf(lines), 1) else Holding(max, all)
  {
    var all := lines + [l];
    assert all[..|lines| + 1] == all;
    TextSnoc(lines, l);
    EventsSnoc(lines, l);
  }

  lemma FieldValue(l: string)
    requires "data:" <= l
    ensures TrimSpace(l[5..]) == if "data: " <= l then l[6..] else l[5..]
  {
    if |l| > 5 && l[5] == ' ' {
      assert l[..6] == "data: ";
    }
  }

  /** The lines without the carriage return that may end them. */
  function TrimAll(lines: seq<string>): (t: seq<string>)
    ensures |t| == |lines|
    ensures forall k :: 0 <= k < |lines| ==>
              var l := lines[k]; t[k] == if l != "" && l[|l| - 1] == '\r' then l[..|l| - 1] else l
  {
    seq(|lines|, k requires 0 <= k < |lines| => TrimCR(lines[k]))
  }

  lemma {:induction false} FeedSnoc(w: Watcher, lines: seq<string>, l: string)
    ensures var v := FeedLines(w, lines); FeedLines(w, lines + [l]) == if v.stopped then v else Feed(v, TrimCR(l))
    decreases |lines|
  {
    if lines == [] {
      assert lines + [l] == [l];
      assert FeedLines(Feed(w, TrimCR(l)), []) == Feed(w, TrimCR(l));
    } else if !w.stopped {
      assert (lines + [l])[1..] == lines[1..] + [l];
      FeedSnoc(Feed(w, TrimCR(lines[0])), lines[1..], l);
    }
  }

  /** What the watcher has come to: it holds on, or stopped at the first event that grew too long. */
  function Reported(max: nat, lines: seq<string>): (w: Watcher)
    ensures !w.stopped ==> w == Holding(max, lines)
  {
    if lines == [] then Holding(max, [])
    else
      var before := lines[..|lines| - 1];
      if Reported(max, before).stopped then Reported(max, before)
      else if TooBig(max, lines, |before|) then Watcher(max, "", "", true, EventsOf(before), 1)
      else Holding(max, lines)
  }

  lemma {:induction false} FeedReports(max: nat, lines: seq<string>)
    ensures FeedLines(Start(max), lines) == Reported(max, TrimAll(lines))
    decreases |lines|
  {
    if lines != [] {
      var m, l := |lines| - 1, lines[|lines| - 1];
      var before, t := lines[..m], TrimAll(lines);
      assert lines == before + [l];
      assert t == TrimAll(before) + [TrimCR(l)] && t[..m] == TrimAll(before);
      FeedReports(max, before);
      FeedSnoc(Start(max), before, l);
      FeedHolds(max, TrimAll(before), TrimCR(l));
    }
  }

  /** Line n is the first to make its event too long. */
  ghost predicate FirstTooBig(max: nat, lines: seq<string>, n: nat) {
    TooBig(max, lines, n) && forall k :: 0 <= k < n ==> !TooBig(max, lines, k)
  }

  lemma TooBigEarlier(max: nat, lines: seq<string>, m: nat, n: nat)
    requires n < m <= |lines|
    ensures TooBig(max, lines, n) <==> TooBig(max, lines[..m], n)
  {
    assert lines[..m][..n + 1] == lines[..n + 1];
  }

  lemma {:induction false} ReportedIsFirst(max: nat, lines: seq<string>, n: nat)
    requires FirstTooBig(max, lines, n)
    ensures Reported(max, lines) == Watcher(max, "", "", true, EventsOf(lines[..n]), 1)
  {
    var m := |lines| - 1;
    forall k | 0 <= k < m
      ensures TooBig(max, lines, k) <==> TooBig(max, lines[..m], k)
    {
      TooBigEarlier(max, lines, m, k);
    }
    if n < m {
      ReportedIsFirst(max, lines[..m], n);
      assert lines[..m][..n] == lines[..n];
    } else {
      ReportedHolds(max, lines[..m]);
    }
  }

  lemma {:induction false} ReportedHolds(max: nat, lines: seq<string>)
    requires forall k :: 0 <= k < |lines| ==> !TooBig(max, lines, k)
    ensures !Reported(max, lines).stopped
  {
    if lines != [] {
      var m := |lines| - 1;
      forall k | 0 <= k < m
        ensures !TooBig(max, lines[..m], k)
      {
        TooBigEarlier(max, lines, m, k);
      }
      ReportedHolds(max, lines[..m]);
    }
  }

  /** What the watcher reports, line by line: as long as no event has grown too long, the events are
      the texts between blank lines; and once one has, watching stops there, with the events before it
      reported, one overflow, and nothing after. */
  lemma {:induction false} EventsAreTheirData(max: nat, lines: seq<string>, n: nat)
    ensures var w, t := FeedLines(Start(max), lines), TrimAll(lines);
            && ((forall k :: 0 <= k < |t| ==> !TooBig(max, t, k)) ==>
                  !w.stopped && w.events == EventsOf(t) && w.event == TextOf(t) && w.overflows == 0)
            && (FirstTooBig(max, t, n) ==> w.stopped && w.events == EventsOf(t[..n]) && w.event == "" && w.overflows == 1)
  {
    var t := TrimAll(lines);
    FeedReports(max, lines);
    if forall k :: 0 <= k < |t| ==> !TooBig(max, t, k) {
      ReportedHolds(max, t);
    }
    if FirstTooBig(max, t, n) {
      ReportedIsFirst(max, t, n);
    }
  }

  // ---------------------------------------------------------------- chunk independence

  /** A line that is too long for the buffer overflows its event when it ends, too. */
  ghost predicate Robust(max: nat, s: string) {
    forall i :: 0 <= i < |s| && s[i] == '\n' ==>
      var w := EatAll(Start(max), s[..i]);
      !w.stopped && |w.line| > max ==> Eat(w, '\n').stopped
  }

  lemma {:induction false} TooLongIsDoomed(max: nat, s: string, n: nat)
    requires Robust(max, s) && n <= |s|
    requires var w := EatAll(Start(max), s[..n]); w.max == max && !w.stopped && |w.line| > max
    ensures var w := EatAll(Start(max), s[..n]); CheckLine(EatAll(Start(max), s)) == Overflow(w)
    decreases |s| - n
  {
    var w := EatAll(Start(max), s[..n]);
    if n == |s| {
      assert s[..n] == s;
    } else {
      SplitAt(s, n);
      EatSnoc(Start(max), s[..n], s[n]);
      var v := EatAll(Start(max), s[..n + 1]);
      if s[n] == '\n' {
        EatAllConcat(Start(max), s[..n + 1], s[n + 1..]);
        StoppedStays(v, s[n + 1..]);
      } else {
        TooLongIsDoomed(max, s, n + 1);
      }
    }
  }

  lemma {:induction false} MaxStays(w: Watcher, b: string)
    ensures EatAll(w, b).max == w.max
  {
    if b != "" {
      MaxStays(w, b[..|b| - 1]);
    }
  }

  lemma RobustPrefix(max: nat, s: string, n: nat)
    requires Robust(max, s) && n <= |s|
    ensures Robust(max, s[..n])
  {
    forall i | 0 <= i < n && s[..n][i] == '\n'
      ensures var w := EatAll(Start(max), s[..n][..i]); !w.stopped && |w.line| > max ==> Eat(w, '\n').stopped
    {
      assert s[..n][..i] == s[..i];
    }
  }

  lemma {:induction false} ChunksAgree(max: nat, chunks: seq<string>)
    requires Robust(max, Flatten(chunks))
    ensures ScanAll(max, chunks) == CheckLine(EatAll(Start(max), Flatten(chunks)))
  {
    if chunks != [] {
      var before, last := chunks[..|chunks| - 1], chunks[|chunks| - 1];
      var s, t := Flatten(chunks), Flatten(before);
      assert s[..|t|] == t;
      RobustPrefix(max, s, |t|);
      ChunksAgree(max, before);
      var w := EatAll(Start(max), t);
      MaxStays(Start(max), t);
      EatAllConcat(Start(max), t, last);
      if w.stopped {
        StoppedStays(w, last);
      } else if |w.line| > max {
        TooLongIsDoomed(max, s, |t|);
      }
    }
  }

  /** At no moment does it matter how the bytes so far were split into reads. */
  ghost predicate ChunkingNeverMatters(max: nat, s: string) {
    forall chunks :: Flatten(chunks) <= s ==> ScanAll(max, chunks) == OneShot(max, Flatten(chunks))
  }

  /** Chunk independence is exact: the events emitted, the overflow outcome and the state carried on
      are those of the one-shot parser for every way of splitting every prefix of the stream, if and
      only if every line too long for the buffer overflows its event when it ends. */
  lemma ChunkIndependence(max: nat, s: string)
    ensures ChunkingNeverMatters(max, s) <==> Robust(max, s)
  {
    if Robust(max, s) {
      forall chunks | Flatten(chunks) <= s
        ensures ScanAll(max, chunks) == OneShot(max, Flatten(chunks))
      {
        assert s[..|Flatten(chunks)|] == Flatten(chunks);
        RobustPrefix(max, s, |Flatten(chunks)|);
        ChunksAgree(max, chunks);
        OneShotIsOneChunk(max, Flatten(chunks));
      }
    } else {
      var i :| 0 <= i < |s| && s[i] == '\n' &&
               !(var w := EatAll(Start(max), s[..i]); !w.stopped && |w.line| > max ==> Eat(w, '\n').stopped);
      SplitBeforeNewline(max, s, i);
    }
  }

  /** The witness: a read that ends just before the newline stops the watching, one that includes it
      does not. */
  lemma SplitBeforeNewline(max: nat, s: string, i: nat)
    requires i < |s| && s[i] == '\n'
    requires var w := EatAll(Start(max), s[..i]); !w.stopped && |w.line| > max && !Eat(w, '\n').stopped
    ensures !ChunkingNeverMatters(max, s)
  {
    SplitAt(s, i);
    TwoChunks(max, s[..i], ['\n']);
    OverflowsBefore(max, s[..i]);
    NoOverflowAfter(max, s[..i]);
    DiffersSomewhere(max, s, [s[..i], ['\n']], i + 1);
  }

  lemma DiffersSomewhere(max: nat, s: string, chunks: seq<string>, n: nat)
    requires n <= |s| && Flatten(chunks) == s[..n] && ScanAll(max, chunks) != OneShot(max, s[..n])
    ensures !ChunkingNeverMatters(max, s)
  {
  }

  lemma OverflowsBefore(max: nat, t: string)
    requires var w := EatAll(Start(max), t); !w.stopped && |w.line| > max
    ensures Scan(Scan(Start(max), t), ['\n']).stopped
  {
    MaxStays(Start(max), t);
  }

  lemma NoOverflowAfter(max: nat, t: string)
    requires var w := EatAll(Start(max), t); !w.stopped && !Eat(w, '\n').stopped
    ensures !OneShot(max, t + ['\n']).stopped
  {
    EatSnoc(Start(max), t, '\n');
    OneShotIsOneChunk(max, t + ['\n']);
  }

  lemma TwoChunks(max: nat, a: string, b: string)
    ensures ScanAll(max, [a, b]) == Scan(Scan(Start(max), a), b) && Flatten([a, b]) == a + b
  {
    assert [a, b][..1] == [a] && [a][..0] == [];
    assert ScanAll(max, [a]) == Scan(Start(max), a);
    assert Flatten([a]) == "" + a == a;
  }

  // ---------------------------------------------------------------- lines that fit

  /** No stretch without a newline is longer than max. */
  ghost predicate LinesFit(max: nat, s: string) {
    forall i, j :: 0 <= i <= j <= |s| && '\n' !in s[i..j] ==> j - i <= max
  }

  lemma {:induction false} LineIsAStretch(max: nat, s: string) returns (i: nat)
    requires !EatAll(Start(max), s).stopped
    ensures i <= |s| && '\n' !in s[i..] && EatAll(Start(max), s).line == s[i..]
  {
    if s == "" {
      i := 0;
    } else {
      var t, c := s[..|s| - 1], s[|s| - 1];
      if c == '\n' {
        i := |s|;
      } else {
        i := LineIsAStretch(max, t);
        assert s[i..] == t[i..] + [c];
      }
    }
  }

  /** The plain case: where every line fits, chunking never matters. */
  lemma FittingLinesAreRobust(max: nat, s: string)
    requires LinesFit(max, s)
    ensures ChunkingNeverMatters(max, s)
  {
    forall i | 0 <= i < |s| && s[i] == '\n'
      ensures var w := EatAll(Start(max), s[..i]); !w.stopped && |w.line| > max ==> Eat(w, '\n').stopped
    {
      var w := EatAll(Start(max), s[..i]);
      if !w.stopped {
        var k := LineIsAStretch(max, s[..i]);
        assert s[..i][k..] == s[k..i];
      }
    }
    ChunkIndependence(max, s);
  }

  /** The condition does fail for every buffer size: a comment line one character too long is nothing
      to the parser when it comes in one read with its newline, and an overflow when it does not. */
  lemma LongCommentDependsOnChunks(max: nat)
    ensures !ChunkingNeverMatters(max, ":" + seq(max, _ => 'x') + "\n")
  {
    var line := ":" + seq(max, _ => 'x');
    LongLineIsIgnored(max, line);
    assert (line + "\n")[..|line|] == line;
    SplitBeforeNewline(max, line + "\n", |line|);
  }

  lemma LongLineIsIgnored(max: nat, line: string)
    requires |line| > max && line[0] == ':' && '\n' !in line
    ensures var w := EatAll(Start(max), line); !w.stopped && |w.line| > max && !Eat(w, '\n').stopped
  {
    EatWithinLine(Start(max), line);
    EmptyPlus(line);
  }
}
