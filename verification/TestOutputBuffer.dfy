/** The streaming capture buffer, one character at a time, against the batch parser of `TestLog`. */
module TestOutputBuffer {
  import opened Collections
  import opened TestLog

  datatype Mode = Outside | Context | Header | Body

  /** `startsWith(text, prefix)`: `text` is a prefix of one of the markers. */
  predicate IsProtocolPrefix(text: string) { text <= BEGIN || text <= CONTEXT }

  type Entries = seq<(string, nat)>

  ghost predicate DistinctNames(entries: Entries) {
    forall i, j :: 0 <= i < j < |entries| ==> entries[i].0 != entries[j].0
  }

  /** The counts a list of entries stands for. */
  ghost function CountsOf(entries: Entries): Counts
  {
    if entries == [] then map[] else CountsOf(entries[..|entries| - 1])[entries[|entries| - 1].0 := entries[|entries| - 1].1]
  }

  lemma {:induction false} EntryCount(entries: Entries, i: nat)
    requires DistinctNames(entries) && i < |entries|
    ensures Count(CountsOf(entries), entries[i].0) == entries[i].1
  {
    if i < |entries| - 1 {
      EntryCount(entries[..|entries| - 1], i);
    }
  }

  lemma {:induction false} NoEntry(entries: Entries, name: string)
    requires forall i :: 0 <= i < |entries| ==> entries[i].0 != name
    ensures name !in CountsOf(entries)
  {
    if entries != [] {
      NoEntry(entries[..|entries| - 1], name);
    }
  }

  lemma {:induction false} EntryUpdate(entries: Entries, i: nat, n: nat)
    requires DistinctNames(entries) && i < |entries|
    ensures CountsOf(entries[i := (entries[i].0, n)]) == CountsOf(entries)[entries[i].0 := n]
  {
    var last := |entries| - 1;
    var updated := entries[i := (entries[i].0, n)];
    if i < last {
      EntryUpdate(entries[..last], i, n);
      assert updated[..last] == entries[..last][i := (entries[i].0, n)];
    } else {
      assert updated[..last] == entries[..last];
    }
  }

  lemma EntryAppend(entries: Entries, name: string, n: nat)
    ensures CountsOf(entries + [(name, n)]) == CountsOf(entries)[name := n]
  {
    assert (entries + [(name, n)])[..|entries|] == entries;
  }

  /** The bytes of a frame in progress, then whatever follows its end. */
  ghost function RenderBody(s: string, name: string, active: string, counts: Counts): string
  {
    match FirstOccurrence(s, END)
    case None => Admitted(counts, name, s)
    case Some(p) =>
      Admitted(counts, name, s[..p]) + END + Render(ParseOutside(s[p + |END|..], active), Charge(counts, name, s[..p]))
  }

  /** A header in progress, after its begin marker. */
  ghost function RenderHeader(s: string, active: string, counts: Counts): string
  {
    match FirstIndex(s, '\n')
    case None => s
    case Some(k) =>
      var name := if k == 0 then active else s[..k];
      name + "\n" + RenderBody(s[k + 1..], name, active, counts)
  }

  lemma HeaderRendered(s: string, active: string, counts: Counts)
    ensures Render(ParseHeader(s, active), counts) == BEGIN + RenderHeader(s, active, counts)
  {
    hide ParseBody, RenderBody, FirstIndex, FirstOccurrence, Render;
    match FirstIndex(s, '\n')
    case None => RenderOne(OpenHeader(s), [], counts);
    case Some(k) =>
      var name := if k == 0 then active else s[..k];
      BodyRendered(s[k + 1..], s[..k], name, active, counts);
      assert BEGIN + name + "\n" + RenderBody(s[k + 1..], name, active, counts)
          == BEGIN + (name + "\n" + RenderBody(s[k + 1..], name, active, counts));
  }

  lemma RenderOne(p: Piece, ps: seq<Piece>, counts: Counts)
    ensures Render([p] + ps, counts) == RenderPiece(p, counts) + Render(ps, ChargePiece(p, counts))
    ensures ps == [] ==> Render([p], counts) == RenderPiece(p, counts)
  {
    assert ([p] + ps)[1..] == ps;
    assert Render([], ChargePiece(p, counts)) == "";
    assert [p][1..] == [];
  }

  lemma BodyRendered(s: string, header: string, name: string, active: string, counts: Counts)
    ensures Render(ParseBody(s, header, name, active), counts) ==
      BEGIN + name + "\n" + RenderBody(s, name, active, counts)
  {
    hide ParseOutside, Render, FirstOccurrence, Admitted, Charge;
    match FirstOccurrence(s, END)
    case None => RenderOne(Frame(header, name, s, false), [], counts);
    case Some(p) =>
      var frame := Frame(header, name, s[..p], true);
      var rest := ParseOutside(s[p + |END|..], active);
      RenderOne(frame, rest, counts);
      var front := BEGIN + name + "\n";
      var kept := Admitted(counts, name, s[..p]);
      var tail := Render(rest, Charge(counts, name, s[..p]));
      assert front + kept + END + tail == front + (kept + END + tail);
  }

  // ---- One character of progress, as facts about the parser ----------------------------------

  /** A marker that starts a text covers its front part, or lies inside it. */
  lemma PrefixShape(m: string, u: string, rest: string)
    ensures m <= u + rest ==> if |u| <= |m| then u <= m else m <= u
  {
    if m <= u + rest {
      assert forall i :: 0 <= i < |m| ==> m[i] == (u + rest)[i];
    }
  }

  /** When the pending text stops being a marker prefix, no marker starts where it starts. */
  lemma NoMarkerAhead(pending: string, c: char, k: nat, rest: string)
    requires IsProtocolPrefix(pending) && pending != BEGIN && pending != CONTEXT
    requires k <= |pending| && !IsProtocolPrefix((pending + [c])[k..])
    ensures var u := (pending + [c])[k..]; !(BEGIN <= u + rest) && !(CONTEXT <= u + rest)
  {
    var u := (pending + [c])[k..];
    PrefixShape(BEGIN, u, rest);
    PrefixShape(CONTEXT, u, rest);
    if |u| > |CONTEXT| {
      if k == 0 {
        assert pending <= BEGIN && u[11] == pending[11] == BEGIN[11];
      } else {
        assert u[0] == pending[k];
      }
    }
  }

  /** The end marker: text that is no prefix of it is body, even though the marker overlaps itself. */
  lemma NoEndAhead(pending: string, c: char, k: nat, rest: string)
    requires pending <= END && pending != END && k <= |pending| && !((pending + [c])[k..] <= END)
    ensures !(END <= (pending + [c])[k..] + rest)
  {
    PrefixShape(END, (pending + [c])[k..], rest);
  }

  lemma OutsideBegin(rest: string, active: string, counts: Counts)
    ensures Render(ParseOutside(BEGIN + rest, active), counts) == BEGIN + RenderHeader(rest, active, counts)
  {
    hide Render, RenderHeader, ParseHeader;
    assert (BEGIN + rest)[|BEGIN|..] == rest;
    HeaderRendered(rest, active, counts);
  }

  lemma OutsideContext(rest: string, active: string)
    ensures ParseOutside(CONTEXT + rest, active) == ParseContext(rest, active)
  {
    hide ParseContext;
    assert (CONTEXT + rest)[|CONTEXT|..] == rest;
    assert !(BEGIN <= CONTEXT + rest) by {
      assert (CONTEXT + rest)[11] == CONTEXT[11] != BEGIN[11];
    }
  }

  lemma {:induction false} ContextEnds(name: string, rest: string, active: string, counts: Counts)
    requires '\n' !in name
    ensures Render(ParseContext(name + ['\n'] + rest, active), counts) == Render(ParseOutside(rest, name), counts)
  {
    hide ParseOutside, Render, FirstIndex;
    var s := name + ['\n'] + rest;
    assert s[..|name|] == name && s[|name| + 1..] == rest;
    FirstIndexIs(s, '\n', |name|);
    RenderOne(ContextLine(name), ParseOutside(rest, name), counts);
  }

  lemma HeaderEnds(header: string, rest: string, active: string, counts: Counts)
    requires '\n' !in header
    ensures var name := if header == "" then active else header;
      RenderHeader(header + ['\n'] + rest, active, counts) == name + "\n" + RenderBody(rest, name, active, counts)
  {
    hide RenderBody, FirstIndex;
    var s := header + ['\n'] + rest;
    assert s[..|header|] == header && s[|header| + 1..] == rest;
    FirstIndexIs(s, '\n', |header|);
  }

  /** Admitting a body byte by byte. */
  lemma AdmittedStep(counts: Counts, name: string, x: char, s: string)
    ensures Admitted(counts, name, [x] + s) == Admitted(counts, name, [x]) + Admitted(Charge(counts, name, [x]), name, s)
    ensures Charge(counts, name, [x] + s) == Charge(Charge(counts, name, [x]), name, s)
  {
  }

  lemma {:induction false} OccurrenceStep(x: char, s: string, marker: string)
    requires !(marker <= [x] + s)
    ensures FirstOccurrence([x] + s, marker) ==
      if FirstOccurrence(s, marker).None? then None else Some(FirstOccurrence(s, marker).value + 1)
  {
    assert ([x] + s)[1..] == s;
  }

  lemma BodyStep(x: char, s: string, name: string, active: string, counts: Counts)
    requires !(END <= [x] + s)
    ensures RenderBody([x] + s, name, active, counts) ==
      Admitted(counts, name, [x]) + RenderBody(s, name, active, Charge(counts, name, [x]))
  {
    hide Render, ParseOutside, Admitted, Charge, FirstOccurrence;
    var t := [x] + s;
    OccurrenceStep(x, s, END);
    match FirstOccurrence(s, END)
    case None => AdmittedStep(counts, name, x, s);
    case Some(p) =>
      assert t[..p + 1] == [x] + s[..p] && t[p + 1 + |END|..] == s[p + |END|..];
      AdmittedStep(counts, name, x, s[..p]);
      var charged := Charge(counts, name, [x]);
      var tail := END + Render(ParseOutside(s[p + |END|..], active), Charge(charged, name, s[..p]));
      Regroup(Admitted(counts, name, [x]), Admitted(charged, name, s[..p]), END,
              Render(ParseOutside(s[p + |END|..], active), Charge(charged, name, s[..p])));
  }

  lemma Regroup(a: string, b: string, c: string, d: string)
    ensures a + b + c + d == a + (b + c + d)
  {
  }

  /** The final text of the outside mode. */
  ghost function OutsideText(out: string, s: string, active: string, counts: Counts): string
  {
    out + Render(ParseOutside(s, active), counts)
  }

  lemma OutsideTextStep(out: string, u: string, rest: string, active: string, counts: Counts)
    requires u != "" && !(BEGIN <= u + rest) && !(CONTEXT <= u + rest)
    ensures OutsideText(out + [u[0]], u[1..] + rest, active, counts) == OutsideText(out, u + rest, active, counts)
  {
    assert u + rest == [u[0]] + (u[1..] + rest);
  }

  lemma OutsideDrops(pending: string, value: char, k: nat, out: string, active: string, counts: Counts)
    requires IsProtocolPrefix(pending) && pending != BEGIN && pending != CONTEXT
    requires k <= |pending| && !IsProtocolPrefix((pending + [value])[k..])
    ensures var u := (pending + [value])[k..];
      forall rest :: OutsideText(out + [u[0]], u[1..] + rest, active, counts) == OutsideText(out, u + rest, active, counts)
  {
    hide OutsideText;
    var u := (pending + [value])[k..];
    forall rest ensures OutsideText(out + [u[0]], u[1..] + rest, active, counts) == OutsideText(out, u + rest, active, counts) {
      NoMarkerAhead(pending, value, k, rest);
      OutsideTextStep(out, u, rest, active, counts);
    }
  }

  lemma HeaderTextEnds(out: string, header: string, rest: string, active: string, counts: Counts)
    requires '\n' !in header
    ensures var name := if header == "" then active else header;
      out + RenderHeader(header + (['\n'] + rest), active, counts) ==
      out + name + ['\n'] + "" + RenderBody("" + rest, name, active, counts)
  {
    hide RenderHeader, RenderBody;
    var name := if header == "" then active else header;
    assert header + (['\n'] + rest) == header + ['\n'] + rest && "" + rest == rest;
    HeaderEnds(header, rest, active, counts);
    var tail := RenderBody(rest, name, active, counts);
    assert out + (name + "\n" + tail) == out + name + ['\n'] + "" + tail;
  }

  /** The final text of the body mode: printed, staged, and what the rest of the body becomes. */
  ghost function BodyText(out: string, staged: string, s: string, name: string, active: string, counts: Counts): string
  {
    out + staged + RenderBody(s, name, active, counts)
  }

  lemma BodyTextStep(out: string, staged: string, u: string, rest: string, name: string, active: string, counts: Counts)
    requires u != "" && !(END <= u + rest)
    ensures BodyText(out, staged + Admitted(counts, name, [u[0]]), u[1..] + rest, name, active, Charge(counts, name, [u[0]]))
         == BodyText(out, staged, u + rest, name, active, counts)
  {
    hide RenderBody, Admitted, Charge;
    assert u + rest == [u[0]] + (u[1..] + rest);
    BodyStep(u[0], u[1..] + rest, name, active, counts);
    Regroup(out + staged, Admitted(counts, name, [u[0]]), "", RenderBody(u[1..] + rest, name, active, Charge(counts, name, [u[0]])));
  }

  lemma BodyDrops(pending: string, value: char, k: nat, out: string, staged: string, name: string, active: string, counts: Counts)
    requires pending <= END && pending != END && k <= |pending| && !EndCandidate((pending + [value])[k..])
    ensures var u := (pending + [value])[k..];
      forall rest ::
        BodyText(out, staged + Admitted(counts, name, [u[0]]), u[1..] + rest, name, active, Charge(counts, name, [u[0]])) ==
        BodyText(out, staged, u + rest, name, active, counts)
  {
    hide BodyText, Admitted, Charge;
    var u := (pending + [value])[k..];
    forall rest
      ensures BodyText(out, staged + Admitted(counts, name, [u[0]]), u[1..] + rest, name, active, Charge(counts, name, [u[0]])) ==
              BodyText(out, staged, u + rest, name, active, counts)
    {
      NoEndAhead(pending, value, k, rest);
      BodyTextStep(out, staged, u, rest, name, active, counts);
    }
  }

  lemma BodyTextEnds(out: string, staged: string, rest: string, name: string, active: string, counts: Counts)
    ensures BodyText(out, staged, END + rest, name, active, counts) ==
      OutsideText(out + staged + END, "" + rest, active, counts)
  {
    assert "" + rest == rest;
  }

  // ---- The pending text is the longest candidate ----------------------------------------------

  /** `pending` is the longest suffix of `span` that may still become a marker. */
  ghost predicate LongestCandidate(span: string, pending: string, candidate: string -> bool) {
    && |pending| <= |span| && pending == span[|span| - |pending|..] && candidate(pending)
    && forall j :: 0 <= j < |span| - |pending| ==> !candidate(span[j..])
  }

  /** Candidates are closed under dropping the last character. */
  ghost predicate PrefixClosed(candidate: string -> bool) {
    forall s: string, c: char :: candidate(s + [c]) ==> candidate(s)
  }

  /** Extending the span by a character, only suffixes of the pending text need to be looked at. */
  lemma CandidateStep(span: string, pending: string, c: char, next: string, candidate: string -> bool)
    requires PrefixClosed(candidate) && LongestCandidate(span, pending, candidate)
    requires LongestCandidate(pending + [c], next, candidate)
    ensures LongestCandidate(span + [c], next, candidate)
  {
    var d := |span| - |pending|;
    forall j | 0 <= j < |span| + 1 - |next| ensures !candidate((span + [c])[j..]) {
      if j < d {
        assert (span + [c])[j..] == span[j..] + [c];
      } else {
        assert (span + [c])[j..] == (pending + [c])[j - d..];
      }
    }
    assert (span + [c])[|span| + 1 - |next|..] == (pending + [c])[|pending| + 1 - |next|..];
  }

  predicate BeginCandidate(s: string) { IsProtocolPrefix(s) }

  predicate EndCandidate(s: string) { s <= END }

  lemma CandidateIs(span: string, pending: string)
    ensures LongestCandidate(span, pending, BeginCandidate) ==> IsProtocolPrefix(pending)
    ensures LongestCandidate(span, pending, EndCandidate) ==> pending <= END
  {
  }

  /** The first suffix that is a candidate is the longest. */
  lemma FirstIsLongest(span: string, k: nat, candidate: string -> bool)
    requires k <= |span| && candidate(span[k..]) && forall j :: 0 <= j < k ==> !candidate(span[j..])
    ensures LongestCandidate(span, span[k..], candidate)
  {
  }

  lemma CandidatesArePrefixClosed()
    ensures PrefixClosed(BeginCandidate) && PrefixClosed(EndCandidate)
  {
    forall s: string, c: char
      ensures BeginCandidate(s + [c]) ==> BeginCandidate(s)
      ensures EndCandidate(s + [c]) ==> EndCandidate(s)
    {
    }
  }

  lemma NothingIsPrefix()
    ensures IsProtocolPrefix("") && EndCandidate("")
  {
  }

  lemma NothingPending()
    ensures LongestCandidate("", "", BeginCandidate) && LongestCandidate("", "", EndCandidate)
  {
  }

  // ---- What is left when the text ends --------------------------------------------------------

  /** Pending text holds no marker, so it is printed as it is. */
  lemma PendingIsText(pending: string, active: string, counts: Counts)
    requires IsProtocolPrefix(pending) && pending != BEGIN && pending != CONTEXT
    ensures Render(ParseOutside(pending, active), counts) == pending
  {
    forall q | 0 <= q <= |pending| ensures !(BEGIN <= pending[q..]) && !(CONTEXT <= pending[q..]) {
      if q == 0 && |pending| > |CONTEXT| {
        assert pending[q..][11] == pending[11] == BEGIN[11];
      } else if 0 < q < |pending| {
        assert pending[q..][0] == pending[q];
      }
    }
    PlainText(pending, active, counts);
  }

  lemma {:induction false} PlainText(s: string, active: string, counts: Counts)
    requires forall q :: 0 <= q <= |s| ==> !(BEGIN <= s[q..]) && !(CONTEXT <= s[q..])
    ensures Render(ParseOutside(s, active), counts) == s
  {
    if s != "" {
      assert s[0..] == s == [s[0]] + s[1..];
      forall q | 0 <= q <= |s[1..]| ensures !(BEGIN <= s[1..][q..]) && !(CONTEXT <= s[1..][q..]) {
        assert s[1..][q..] == s[q + 1..];
      }
      PlainText(s[1..], active, counts);
    } else {
      assert s[0..] == s;
    }
  }

  lemma OpenContextText(name: string, active: string, counts: Counts)
    requires '\n' !in name
    ensures Render(ParseContext(name, active), counts) == CONTEXT + name
  {
    RenderOne(OpenContext(name), [], counts);
  }

  lemma OpenHeaderText(header: string, active: string, counts: Counts)
    requires '\n' !in header
    ensures RenderHeader(header, active, counts) == header
  {
  }

  lemma OpenBodyText(pending: string, name: string, active: string, counts: Counts)
    requires |pending| < |END|
    ensures RenderBody(pending, name, active, counts) == Admitted(counts, name, pending)
  {
    hide FirstOccurrence, Admitted, Render, ParseOutside;
    assert FirstOccurrence(pending, END).None?;
  }

  lemma AdmittedNothing(counts: Counts, name: string)
    ensures Admitted(counts, name, "") == "" && Charge(counts, name, "") == counts
  {
  }

  lemma AdmittedSnoc(counts: Counts, name: string, s: string, x: char)
    ensures Admitted(counts, name, s + [x]) == Admitted(counts, name, s) + Admitted(Charge(counts, name, s), name, [x])
    ensures Charge(counts, name, s + [x]) == Charge(Charge(counts, name, s), name, [x])
  {
  }

  // ---- The buffer ----------------------------------------------------------------------------

  class Buffer {
    var output: string
    var outsidePending: string
    var contextName: string
    var header: string
    var logName: string
    var endPending: string
    var logBytes: Entries
    const logBuffer: array<char>
    var logBufferSize: nat
    var mode: Mode
    var activeTest: string
    /** What has been consumed since the outside or body mode was entered. */
    ghost var span: string

    /** The pending text of each mode is what may still become a marker or a line. */
    ghost predicate Valid()
      reads this
    {
      && logBuffer.Length == CAPACITY && DistinctNames(logBytes) && logBufferSize <= CAPACITY
      && match mode
         case Outside =>
           && IsProtocolPrefix(outsidePending) && outsidePending != BEGIN && outsidePending != CONTEXT
           && LongestCandidate(span, outsidePending, BeginCandidate)
         case Context => '\n' !in contextName && outsidePending == ""
         case Header => '\n' !in header && outsidePending == ""
         case Body =>
           && endPending <= END && endPending != END && outsidePending == "" && StagingFits()
           && LongestCandidate(span, endPending, EndCandidate)
    }

    /** The staging buffer never holds more than was charged to its log's name. */
    ghost predicate StagingFits()
      reads this
    {
      logBuffer.Length == CAPACITY && DistinctNames(logBytes) && logBufferSize <= CAPACITY
      && logBufferSize <= Count(CountsOf(logBytes), logName)
    }

    ghost function Counts(): Counts reads this { CountsOf(logBytes) }

    ghost function BodyNow(s: string): string
      reads this, logBuffer
      requires logBufferSize <= logBuffer.Length
    {
      BodyText(output, logBuffer[..logBufferSize], s, logName, activeTest, Counts())
    }

    /** The final text, should exactly `rest` still arrive. */
    ghost function Result(rest: string): string
      reads this, logBuffer
      requires Valid()
    {
      match mode
      case Outside => OutsideText(output, outsidePending + rest, activeTest, Counts())
      case Context => output + Render(ParseContext(contextName + rest, activeTest), Counts())
      case Header => output + RenderHeader(header + rest, activeTest, Counts())
      case Body => BodyNow(endPending + rest)
    }

    constructor ()
      ensures Valid() && fresh(logBuffer)
      ensures forall rest :: Result(rest) == Batch(rest)
    {
      hide ParseOutside, Render, ParseContext, RenderHeader, BodyText, LongestCandidate, IsProtocolPrefix, BeginCandidate, EndCandidate;
      output, outsidePending, contextName, header, logName, endPending, activeTest := "", "", "", "", "", "", "";
      logBytes, logBufferSize, mode, span := [], 0, Outside, "";
      logBuffer := new char[CAPACITY](_ => '\0');
      new;
      NothingPending();
      NothingIsPrefix();
      forall rest ensures Result(rest) == Batch(rest) {
        assert "" + rest == rest;
      }
    }

    /** `appendBodyByte`: charge the byte to the log's name and stage it, while both have room. */
    method AppendBodyByte(value: char)
      requires StagingFits()
      modifies this`logBytes, this`logBufferSize, logBuffer
      ensures StagingFits()
      ensures Counts() == Charge(old(Counts()), logName, [value])
      ensures logBuffer[..logBufferSize] == old(logBuffer[..logBufferSize]) + Admitted(old(Counts()), logName, [value])
    {
      hide CountsOf;
      var i := 0;
      while i < |logBytes| && logBytes[i].0 != logName
        invariant 0 <= i <= |logBytes| && forall j :: 0 <= j < i ==> logBytes[j].0 != logName
      {
        i := i + 1;
      }
      if i == |logBytes| {
        NoEntry(logBytes, logName);
        EntryAppend(logBytes, logName, 0);
        logBytes := logBytes + [(logName, 0)];
      }
      EntryCount(logBytes, i);
      if logBytes[i].1 < CAPACITY && logBufferSize < logBuffer.Length {
        EntryUpdate(logBytes, i, logBytes[i].1 + 1);
        logBuffer[logBufferSize] := value;
        logBufferSize := logBufferSize + 1;
        logBytes := logBytes[i := (logBytes[i].0, logBytes[i].1 + 1)];
        EntryCount(logBytes, i);
      }
    }

    method FlushLogBuffer()
      requires logBufferSize <= logBuffer.Length
      modifies this`output, this`logBufferSize
      ensures logBufferSize == 0
      ensures output == old(output) + old(logBuffer[..logBufferSize])
    {
      output := output + logBuffer[..logBufferSize];
      logBufferSize := 0;
    }

    /** `appendOutside`, first half: hold back what may become a marker, print the rest. */
    method DrainOutside(value: char)
      requires Valid() && mode == Outside
      modifies this`output, this`outsidePending
      ensures LongestCandidate(old(outsidePending) + [value], outsidePending, BeginCandidate)
      ensures forall rest :: OutsideText(output, outsidePending + rest, activeTest, Counts()) ==
                             old(OutsideText(output, outsidePending + ([value] + rest), activeTest, Counts()))
    {
      hide OutsideText, CountsOf, LongestCandidate, IsProtocolPrefix, EndCandidate;
      NothingIsPrefix();
      ghost var pending, before, counts := outsidePending, output, Counts();
      outsidePending := outsidePending + [value];
      ghost var k := 0;
      forall rest ensures pending + ([value] + rest) == outsidePending + rest {
      }
      while !IsProtocolPrefix(outsidePending)
        invariant k <= |pending| + 1 && outsidePending == (pending + [value])[k..]
        invariant forall j :: 0 <= j < k ==> !BeginCandidate((pending + [value])[j..])
        invariant forall rest :: OutsideText(output, outsidePending + rest, activeTest, counts) ==
                                 OutsideText(before, pending + ([value] + rest), activeTest, counts)
        decreases |outsidePending|
      {
        OutsideDrops(pending, value, k, output, activeTest, counts);
        output := output + [outsidePending[0]];
        outsidePending := outsidePending[1..];
        k := k + 1;
      }
      FirstIsLongest(pending + [value], k, BeginCandidate);
    }

    /** `appendOutside`, second half: a complete marker changes the mode. */
    method AppendOutside(value: char)
      requires Valid() && mode == Outside
      modifies this`output, this`outsidePending, this`header, this`contextName, this`mode, this`span
      ensures Valid()
      ensures forall rest :: Result(rest) == old(Result([value] + rest))
    {
      hide ParseOutside, Render, ParseContext, RenderHeader, RenderBody, CountsOf, BeginCandidate, EndCandidate,
        LongestCandidate, PrefixClosed, IsProtocolPrefix, BodyText;
      ghost var pending := outsidePending;
      DrainOutside(value);
      CandidatesArePrefixClosed();
      CandidateStep(span, pending, value, outsidePending, BeginCandidate);
      span := span + [value];
      CandidateIs(span, outsidePending);
      if outsidePending == BEGIN {
        forall rest
          ensures output + BEGIN + RenderHeader("" + rest, activeTest, Counts()) ==
                  OutsideText(output, outsidePending + rest, activeTest, Counts())
        {
          assert "" + rest == rest;
          OutsideBegin(rest, activeTest, Counts());
        }
        output := output + BEGIN;
        outsidePending := "";
        header := "";
        mode := Header;
      } else if outsidePending == CONTEXT {
        forall rest
          ensures ParseContext("" + rest, activeTest) == ParseOutside(outsidePending + rest, activeTest)
        {
          assert "" + rest == rest;
          OutsideContext(rest, activeTest);
        }
        outsidePending := "";
        contextName := "";
        mode := Context;
      }
    }

    method AppendContext(value: char)
      requires Valid() && mode == Context
      modifies this`activeTest, this`contextName, this`mode, this`span
      ensures Valid()
      ensures forall rest :: Result(rest) == old(Result([value] + rest))
    {
      hide ParseOutside, Render, ParseContext, RenderHeader, RenderBody, CountsOf;
      if value == '\n' {
        forall rest
          ensures Render(ParseContext(contextName + ([value] + rest), activeTest), Counts()) ==
                  Render(ParseOutside(outsidePending + rest, contextName), Counts())
        {
          assert contextName + ([value] + rest) == contextName + ['\n'] + rest && outsidePending + rest == rest;
          ContextEnds(contextName, rest, activeTest, Counts());
        }
        activeTest := contextName;
        contextName := "";
        mode, span := Outside, "";
        NothingPending();
        return;
      }
      forall rest ensures contextName + ([value] + rest) == contextName + [value] + rest {
      }
      contextName := contextName + [value];
    }

    method AppendHeader(value: char)
      requires Valid() && mode == Header
      modifies this`header, this`logName, this`output, this`endPending, this`logBufferSize, this`mode, this`span
      ensures Valid()
      ensures forall rest :: Result(rest) == old(Result([value] + rest))
    {
      hide ParseOutside, Render, ParseContext, RenderHeader, RenderBody, CountsOf;
      if value != '\n' {
        forall rest ensures header + ([value] + rest) == header + [value] + rest {
        }
        header := header + [value];
        return;
      }
      ghost var name := if header == "" then activeTest else header;
      forall rest
        ensures output + RenderHeader(header + (['\n'] + rest), activeTest, Counts()) ==
                output + name + ['\n'] + "" + RenderBody("" + rest, name, activeTest, Counts())
      {
        HeaderTextEnds(output, header, rest, activeTest, Counts());
      }
      assert logBuffer[..0] == "";
      logName := if header == "" then activeTest else header;
      header := "";
      output := output + logName;
      output := output + ['\n'];
      endPending := "";
      logBufferSize := 0;
      mode, span := Body, "";
      NothingPending();
    }

    /** `appendBody`, first half: hold back what may become the end marker, stage the rest. */
    method DrainBody(value: char)
      requires Valid() && mode == Body
      modifies this`endPending, this`logBytes, this`logBufferSize, logBuffer
      ensures StagingFits() && LongestCandidate(old(endPending) + [value], endPending, EndCandidate)
      ensures forall rest :: BodyNow(endPending + rest) == old(BodyNow(endPending + ([value] + rest)))
    {
      hide BodyText, CountsOf, Admitted, Charge, LongestCandidate, DistinctNames, IsProtocolPrefix, Count, EndCandidate;
      NothingIsPrefix();
      ghost var pending, k := endPending, 0;
      endPending := endPending + [value];
      forall rest ensures pending + ([value] + rest) == endPending + rest {
      }
      while !EndCandidate(endPending)
        invariant k <= |pending| + 1 && endPending == (pending + [value])[k..]
        invariant StagingFits()
        invariant forall j :: 0 <= j < k ==> !EndCandidate((pending + [value])[j..])
        invariant forall rest :: BodyNow(endPending + rest) == old(BodyNow(endPending + ([value] + rest)))
        decreases |endPending|
      {
        BodyDrops(pending, value, k, output, logBuffer[..logBufferSize], logName, activeTest, Counts());
        AppendBodyByte(endPending[0]);
        endPending := endPending[1..];
        k := k + 1;
      }
      FirstIsLongest(pending + [value], k, EndCandidate);
    }

    /** `appendBody`, second half: a complete end marker closes the frame. */
    method AppendBody(value: char)
      requires Valid() && mode == Body
      modifies this`endPending, this`logBytes, this`logBufferSize, this`output, this`logName, this`mode, this`span, logBuffer
      ensures Valid()
      ensures forall rest :: Result(rest) == old(Result([value] + rest))
    {
      hide BodyText, CountsOf, OutsideText, BeginCandidate, EndCandidate, LongestCandidate, PrefixClosed, RenderHeader,
        DistinctNames;
      ghost var pending := endPending;
      DrainBody(value);
      CandidatesArePrefixClosed();
      CandidateStep(span, pending, value, endPending, EndCandidate);
      span := span + [value];
      CandidateIs(span, endPending);
      if endPending == END {
        forall rest
          ensures BodyText(output, logBuffer[..logBufferSize], END + rest, logName, activeTest, Counts()) ==
                  OutsideText(output + logBuffer[..logBufferSize] + END, "" + rest, activeTest, Counts())
        {
          BodyTextEnds(output, logBuffer[..logBufferSize], rest, logName, activeTest, Counts());
        }
        FlushLogBuffer();
        output := output + END;
        endPending := "";
        logName := "";
        mode, span := Outside, "";
        NothingPending();
      }
    }

    /** `append`: the buffer's state says of any later text what the batch parser says of the whole. */
    method Append(text: string)
      requires Valid()
      modifies this, logBuffer
      ensures Valid()
      ensures forall rest :: Result(rest) == old(Result(text + rest))
    {
      hide Result;
      var i := 0;
      forall rest ensures text[0..] + rest == text + rest {
      }
      while i < |text|
        invariant 0 <= i <= |text| && Valid()
        invariant forall rest :: Result(text[i..] + rest) == old(Result(text + rest))
      {
        forall rest ensures [text[i]] + (text[i + 1..] + rest) == text[i..] + rest {
        }
        match mode {
          case Outside => AppendOutside(text[i]);
          case Context => AppendContext(text[i]);
          case Header => AppendHeader(text[i]);
          case Body => AppendBody(text[i]);
        }
        i := i + 1;
      }
      forall rest ensures text[|text|..] + rest == rest {
      }
    }

    method TakeBody()
      requires Valid() && mode == Body
      modifies this`logBytes, this`logBufferSize, this`output, logBuffer
      ensures output == old(output) + old(logBuffer[..logBufferSize]) + Admitted(old(Counts()), logName, endPending)
    {
      hide CountsOf, Admitted, Charge, DistinctNames, Count, LongestCandidate, EndCandidate, IsProtocolPrefix;
      ghost var staged, counts := logBuffer[..logBufferSize], Counts();
      AdmittedNothing(counts, logName);
      var i := 0;
      while i < |endPending|
        invariant 0 <= i <= |endPending| && StagingFits() && output == old(output)
        invariant logBuffer[..logBufferSize] == staged + Admitted(counts, logName, endPending[..i])
        invariant Counts() == Charge(counts, logName, endPending[..i])
      {
        AdmittedSnoc(counts, logName, endPending[..i], endPending[i]);
        assert endPending[..i + 1] == endPending[..i] + [endPending[i]];
        AppendBodyByte(endPending[i]);
        i := i + 1;
      }
      assert endPending[..|endPending|] == endPending;
      ghost var before, admitted := output, Admitted(counts, logName, endPending);
      FlushLogBuffer();
      assert before + (staged + admitted) == before + staged + admitted;
    }

    /** `take`: what is still pending is printed as it is, or charged to its log. */
    method Take() returns (taken: string)
      requires Valid()
      modifies this, logBuffer
      ensures taken == old(Result(""))
    {
      hide ParseOutside, Render, ParseContext, RenderHeader, RenderBody, CountsOf;
      if mode == Outside {
        assert outsidePending + "" == outsidePending;
        PendingIsText(outsidePending, activeTest, Counts());
        output := output + outsidePending;
      } else if mode == Context {
        assert contextName + "" == contextName;
        OpenContextText(contextName, activeTest, Counts());
        output := output + CONTEXT;
        output := output + contextName;
      } else if mode == Header {
        assert header + "" == header;
        OpenHeaderText(header, activeTest, Counts());
        output := output + header;
      } else {
        assert endPending + "" == endPending;
        OpenBodyText(endPending, logName, activeTest, Counts());
        TakeBody();
      }
      taken := output;
      output := "";
    }
  }

  function Concat(chunks: seq<string>): string
  {
    if chunks == [] then "" else chunks[0] + Concat(chunks[1..])
  }

  /** A whole capture: however the text is cut into chunks, the result is the batch result. */
  method Capture(chunks: seq<string>) returns (taken: string)
    ensures taken == Batch(Concat(chunks))
  {
    var buffer := new Buffer();
    var i := 0;
    ghost var expected := Batch(Concat(chunks));
    while i < |chunks|
      invariant 0 <= i <= |chunks| && buffer.Valid() && fresh(buffer) && fresh(buffer.logBuffer)
      invariant buffer.Result(Concat(chunks[i..])) == expected
    {
      assert chunks[i..][1..] == chunks[i + 1..];
      buffer.Append(chunks[i]);
      i := i + 1;
    }
    taken := buffer.Take();
  }
}
