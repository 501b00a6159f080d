/** The test-log framing as a batch parser over a whole text, and what it prints. */
module TestLog {
  import opened Collections

  const BEGIN: string := "\U{1E}ZITH-TEST-LOG-BEGIN:"
  const END: string := "\U{1E}ZITH-TEST-LOG-END\U{1E}\n"
  const CONTEXT: string := "\U{1E}ZITH-TEST-CONTEXT:"
  const CAPACITY: nat := 4096

  /** A text cut into plain characters, context lines and log frames. A context line or header cut
      off by the end of the text is kept as such; a frame may lack its end marker. */
  datatype Piece =
    | Text(c: char)
    | ContextLine(name: string)
    | OpenContext(name: string)
    | OpenHeader(header: string)
    | Frame(header: string, name: string, body: string, closed: bool)

  /** The first position where `marker` occurs in `s`. */
  function FirstOccurrence(s: string, marker: string): (r: Option<nat>)
    ensures r.Some? ==> r.value <= |s| && marker <= s[r.value..] && r.value + |marker| <= |s|
    ensures r.Some? ==> forall p :: 0 <= p < r.value ==> !(marker <= s[p..])
    ensures r.None? ==> forall p :: 0 <= p <= |s| ==> !(marker <= s[p..])
  {
    if marker <= s then Some(0)
    else if s == [] then None
    else match FirstOccurrence(s[1..], marker)
      case None =>
        assert forall p :: 1 <= p <= |s| ==> s[p..] == s[1..][p - 1..];
        None
      case Some(p) =>
        assert s[p + 1..] == s[1..][p..];
        assert forall q :: 1 <= q <= p ==> s[q..] == s[1..][q - 1..];
        Some(p + 1)
  }

  function ParseOutside(s: string, active: string): seq<Piece>
    decreases |s|, 1
  {
    if BEGIN <= s then ParseHeader(s[|BEGIN|..], active)
    else if CONTEXT <= s then ParseContext(s[|CONTEXT|..], active)
    else if s == [] then []
    else [Text(s[0])] + ParseOutside(s[1..], active)
  }

  /** After a context marker: the name runs to the end of the line. */
  function ParseContext(s: string, active: string): seq<Piece>
    decreases |s|, 0
  {
    match FirstIndex(s, '\n')
    case None => [OpenContext(s)]
    case Some(k) => [ContextLine(s[..k])] + ParseOutside(s[k + 1..], s[..k])
  }

  /** After a begin marker: a header line, where an empty one stands for the active test. */
  function ParseHeader(s: string, active: string): seq<Piece>
    decreases |s|, 0
  {
    match FirstIndex(s, '\n')
    case None => [OpenHeader(s)]
    case Some(k) => ParseBody(s[k + 1..], s[..k], if k == 0 then active else s[..k], active)
  }

  /** The body runs to the first end marker. */
  function ParseBody(s: string, header: string, name: string, active: string): seq<Piece>
    decreases |s|, 0
  {
    match FirstOccurrence(s, END)
    case None => [Frame(header, name, s, false)]
    case Some(p) => [Frame(header, name, s[..p], true)] + ParseOutside(s[p + |END|..], active)
  }

  /** Bytes already kept per log name. */
  type Counts = map<string, nat>

  function Count(counts: Counts, name: string): nat { if name in counts then counts[name] else 0 }

  /** What is still admitted of `body` under `name`. */
  function Admitted(counts: Counts, name: string, body: string): (r: string)
    ensures r <= body
  {
    var room := if Count(counts, name) < CAPACITY then CAPACITY - Count(counts, name) else 0;
    if |body| <= room then body else body[..room]
  }

  function Charge(counts: Counts, name: string, body: string): Counts
  {
    var n := |Admitted(counts, name, body)|;
    if n == 0 then counts else counts[name := Count(counts, name) + n]
  }

  function RenderPiece(p: Piece, counts: Counts): string
  {
    match p
    case Text(c) => [c]
    case ContextLine(_) => ""
    case OpenContext(name) => CONTEXT + name
    case OpenHeader(header) => BEGIN + header
    case Frame(_, name, body, closed) =>
      BEGIN + name + "\n" + Admitted(counts, name, body) + if closed then END else ""
  }

  function ChargePiece(p: Piece, counts: Counts): Counts
  {
    if p.Frame? then Charge(counts, p.name, p.body) else counts
  }

  /** The printed form of a parsed text, with the bytes kept so far under each name. */
  function Render(ps: seq<Piece>, counts: Counts): string
  {
    if ps == [] then "" else RenderPiece(ps[0], counts) + Render(ps[1..], ChargePiece(ps[0], counts))
  }

  /** What a whole test output becomes. */
  function Batch(s: string): string { Render(ParseOutside(s, ""), map[]) }

  // ---- What the parser and the printer guarantee ---------------------------------------------

  function SourcePiece(p: Piece): string
  {
    match p
    case Text(c) => [c]
    case ContextLine(name) => CONTEXT + name + "\n"
    case OpenContext(name) => CONTEXT + name
    case OpenHeader(header) => BEGIN + header
    case Frame(header, _, body, closed) => BEGIN + header + "\n" + body + if closed then END else ""
  }

  function Source(ps: seq<Piece>): string
  {
    if ps == [] then "" else SourcePiece(ps[0]) + Source(ps[1..])
  }

  lemma SourceFrom(p: Piece, ps: seq<Piece>)
    ensures Source([p] + ps) == SourcePiece(p) + Source(ps)
    ensures Source([p]) == SourcePiece(p)
  {
    assert ([p] + ps)[1..] == ps && [p][1..] == [];
  }

  /** Parsing loses, adds and reorders nothing: the pieces spell the text. */
  lemma {:induction false} ParseIsLossless(s: string, active: string)
    ensures Source(ParseOutside(s, active)) == s
    decreases |s|, 1
  {
    hide FirstIndex, FirstOccurrence;
    if BEGIN <= s {
      HeaderIsLossless(s[|BEGIN|..], active);
    } else if CONTEXT <= s {
      ContextIsLossless(s[|CONTEXT|..], active);
    } else if s != [] {
      ParseIsLossless(s[1..], active);
    }
  }

  lemma {:induction false} ContextIsLossless(s: string, active: string)
    ensures Source(ParseContext(s, active)) == CONTEXT + s
    decreases |s|, 0
  {
    hide ParseOutside, FirstIndex, Source;
    match FirstIndex(s, '\n')
    case None => SourceFrom(OpenContext(s), []);
    case Some(k) =>
      var name, tail := s[..k], s[k + 1..];
      ParseIsLossless(tail, name);
      SourceFrom(ContextLine(name), ParseOutside(tail, name));
      assert s == name + "\n" + tail;
      assert CONTEXT + name + "\n" + tail == CONTEXT + (name + "\n" + tail);
  }

  lemma {:induction false} HeaderIsLossless(s: string, active: string)
    ensures Source(ParseHeader(s, active)) == BEGIN + s
    decreases |s|, 0
  {
    hide ParseBody, Source, FirstIndex;
    match FirstIndex(s, '\n')
    case None => SourceFrom(OpenHeader(s), []);
    case Some(k) =>
      var header, rest := s[..k], s[k + 1..];
      BodyIsLossless(rest, header, if k == 0 then active else header, active);
      assert s == header + "\n" + rest;
      assert BEGIN + header + "\n" + rest == BEGIN + (header + "\n" + rest);
  }

  lemma {:induction false} BodyIsLossless(s: string, header: string, name: string, active: string)
    ensures Source(ParseBody(s, header, name, active)) == BEGIN + header + "\n" + s
    decreases |s|, 0
  {
    hide ParseOutside, FirstOccurrence, Source;
    match FirstOccurrence(s, END)
    case None => SourceFrom(Frame(header, name, s, false), []);
    case Some(p) =>
      var body, tail := s[..p], s[p + |END|..];
      ParseIsLossless(tail, active);
      SourceFrom(Frame(header, name, body, true), ParseOutside(tail, active));
      assert s == body + END + tail;
      var front := BEGIN + header + "\n";
      assert front + body + END + tail == front + (body + END + tail);
  }

  // ---- One reading ----

  /** The end marker is first met where the body ends. */
  ghost predicate EndsFirst(body: string, closed: bool) {
    if closed then forall p :: 0 <= p < |body| ==> !(END <= (body + END)[p..])
    else forall p :: 0 <= p <= |body| ==> !(END <= body[p..])
  }

  /**
   * A reading of a text: no marker begins at a plain character, names and headers stay on their line, a
   * frame is named by its header or else by the test active there, and only the last piece may be unfinished.
   */
  ghost predicate Proper(ps: seq<Piece>, active: string) {
    ps == [] ||
    match ps[0]
    case Text(_) => !(BEGIN <= Source(ps)) && !(CONTEXT <= Source(ps)) && Proper(ps[1..], active)
    case ContextLine(name) => '\n' !in name && Proper(ps[1..], name)
    case OpenContext(name) => '\n' !in name && |ps| == 1
    case OpenHeader(header) => '\n' !in header && |ps| == 1
    case Frame(header, name, body, closed) =>
      && '\n' !in header && name == (if header == "" then active else header) && EndsFirst(body, closed)
      && if closed then Proper(ps[1..], active) else |ps| == 1
  }

  lemma {:induction false} ParseIsProper(s: string, active: string)
    ensures Proper(ParseOutside(s, active), active)
    decreases |s|, 1
  {
    hide FirstIndex, FirstOccurrence, EndsFirst;
    ParseIsLossless(s, active);
    if BEGIN <= s {
      HeaderIsProper(s[|BEGIN|..], active);
    } else if CONTEXT <= s {
      ContextIsProper(s[|CONTEXT|..], active);
    } else if s != [] {
      ParseIsProper(s[1..], active);
    }
  }

  lemma {:induction false} ContextIsProper(s: string, active: string)
    ensures Proper(ParseContext(s, active), active)
    decreases |s|, 0
  {
    hide ParseOutside, FirstIndex, Source;
    match FirstIndex(s, '\n')
    case None =>
    case Some(k) => ParseIsProper(s[k + 1..], s[..k]);
  }

  lemma {:induction false} HeaderIsProper(s: string, active: string)
    ensures Proper(ParseHeader(s, active), active)
    decreases |s|, 0
  {
    hide ParseOutside, FirstIndex, Source, FirstOccurrence, EndsFirst;
    match FirstIndex(s, '\n')
    case None =>
    case Some(k) =>
      var header, rest := s[..k], s[k + 1..];
      BodyEndsFirst(rest);
      match FirstOccurrence(rest, END)
      case None =>
      case Some(p) => ParseIsProper(rest[p + |END|..], active);
  }

  lemma BodyEndsFirst(s: string)
    ensures match FirstOccurrence(s, END)
      case None => EndsFirst(s, false)
      case Some(p) => EndsFirst(s[..p], true)
  {
    match FirstOccurrence(s, END)
    case None =>
    case Some(p) =>
      assert s == s[..p] + END + s[p + |END|..];
      forall q | 0 <= q < p
        ensures !(END <= (s[..p] + END)[q..])
      {
        assert (s[..p] + END)[q..] <= s[q..];
      }
  }

  lemma LineEnds(name: string, rest: string)
    requires '\n' !in name
    ensures var line := name + "\n" + rest;
      FirstIndex(line, '\n') == Some(|name|) && line[..|name|] == name && line[|name| + 1..] == rest
    ensures FirstIndex(name, '\n') == None
  {
    var line := name + "\n" + rest;
    assert line[..|name|] == name;
    FirstIndexIs(line, '\n', |name|);
  }

  lemma EndIsFound(body: string, closed: bool, rest: string)
    requires EndsFirst(body, closed) && (!closed ==> rest == "")
    ensures var s := body + (if closed then END else "") + rest;
      if closed then FirstOccurrence(s, END) == Some(|body|) && s[..|body|] == body && s[|body| + |END|..] == rest
      else s == body && FirstOccurrence(s, END) == None
  {
    if closed {
      var s := body + END + rest;
      assert s[|body|..] == END + rest;
      forall p | 0 <= p < |body|
        ensures !(END <= s[p..])
      {
        assert (body + END)[p..] <= s[p..];
      }
    }
  }

  /** The markers differ, so a context line is never taken for a frame. */
  lemma ContextIsRecognised(name: string, rest: string, active: string)
    requires '\n' !in name
    ensures ParseOutside(CONTEXT + name + "\n" + rest, active) == [ContextLine(name)] + ParseOutside(rest, name)
    ensures ParseOutside(CONTEXT + name, active) == [OpenContext(name)]
  {
    hide FirstIndex, ParseHeader;
    assert CONTEXT[11] == 'C' && BEGIN[11] == 'L';
    LineEnds(name, rest);
    var line := name + "\n" + rest;
    assert CONTEXT + name + "\n" + rest == CONTEXT + line;
    assert (CONTEXT + line)[|CONTEXT|..] == line && (CONTEXT + name)[|CONTEXT|..] == name;
  }

  lemma BodyIsRecognised(header: string, name: string, body: string, closed: bool, rest: string, active: string)
    requires EndsFirst(body, closed) && (!closed ==> rest == "")
    ensures ParseBody(body + (if closed then END else "") + rest, header, name, active) ==
      [Frame(header, name, body, closed)] + if closed then ParseOutside(rest, active) else []
  {
    hide FirstOccurrence, EndsFirst, ParseOutside;
    EndIsFound(body, closed, rest);
  }

  lemma LineIsRecognised(header: string, tail: string, active: string)
    requires '\n' !in header
    ensures ParseHeader(header + "\n" + tail, active) == ParseBody(tail, header, if header == "" then active else header, active)
  {
    hide FirstIndex, ParseBody;
    LineEnds(header, tail);
  }

  lemma BeginIsRecognised(line: string, active: string)
    ensures ParseOutside(BEGIN + line, active) == ParseHeader(line, active)
  {
    hide ParseHeader, ParseContext;
    assert (BEGIN + line)[|BEGIN|..] == line;
  }

  lemma FrameIsRecognised(header: string, body: string, closed: bool, rest: string, active: string)
    requires '\n' !in header && EndsFirst(body, closed) && (!closed ==> rest == "")
    ensures ParseOutside(BEGIN + header + "\n" + body + (if closed then END else "") + rest, active) ==
      [Frame(header, if header == "" then active else header, body, closed)] + if closed then ParseOutside(rest, active) else []
  {
    hide ParseBody, EndsFirst, ParseHeader, ParseOutside;
    var end := if closed then END else "";
    var tail := body + end + rest;
    BodyIsRecognised(header, if header == "" then active else header, body, closed, rest, active);
    LineIsRecognised(header, tail, active);
    BeginIsRecognised(header + "\n" + tail, active);
    assert BEGIN + header + "\n" + body + end + rest == BEGIN + (header + "\n" + tail);
  }

  lemma HeaderIsRecognised(header: string, active: string)
    requires '\n' !in header
    ensures ParseOutside(BEGIN + header, active) == [OpenHeader(header)]
  {
    hide FirstIndex, ParseOutside;
    LineEnds(header, "");
    BeginIsRecognised(header, active);
  }

  lemma TextIsRecognised(c: char, rest: string, active: string)
    requires !(BEGIN <= [c] + rest) && !(CONTEXT <= [c] + rest)
    ensures ParseOutside([c] + rest, active) == [Text(c)] + ParseOutside(rest, active)
    ensures ParseOutside("", active) == []
  {
    hide ParseHeader, ParseContext;
    assert ([c] + rest)[1..] == rest;
  }

  lemma {:induction false} ProperIsParse(ps: seq<Piece>, active: string)
    requires Proper(ps, active)
    ensures ParseOutside(Source(ps), active) == ps
  {
    hide EndsFirst, ParseHeader, ParseContext;
    if ps == [] {
      assert ParseOutside("", active) == [];
    } else {
      var rest := Source(ps[1..]);
      match ps[0]
      case Text(c) =>
        ProperIsParse(ps[1..], active);
        TextIsRecognised(c, rest, active);
      case ContextLine(name) =>
        ProperIsParse(ps[1..], name);
        ContextIsRecognised(name, rest, active);
      case OpenContext(name) =>
        ContextIsRecognised(name, "", active);
        assert CONTEXT + name + "" == CONTEXT + name;
      case OpenHeader(header) =>
        HeaderIsRecognised(header, active);
        assert BEGIN + header + "" == BEGIN + header;
      case Frame(header, name, body, closed) =>
        if closed {
          ProperIsParse(ps[1..], active);
        }
        FrameIsRecognised(header, body, closed, rest, active);
    }
  }

  /** The parser finds the one reading of a text: its pieces spell the text and are proper, and no others do and are. */
  lemma ParseIsTheReading(s: string, active: string, ps: seq<Piece>)
    ensures ParseOutside(s, active) == ps <==> Source(ps) == s && Proper(ps, active)
  {
    hide ParseOutside, Source, Proper;
    ParseIsLossless(s, active);
    ParseIsProper(s, active);
    if Proper(ps, active) {
      ProperIsParse(ps, active);
    }
  }

  /** Plain text runs up to the first place where either marker occurs. */
  lemma {:induction false} TextBeforeFirstMarker(s: string, active: string, p: nat)
    requires p <= |s| && forall q :: 0 <= q < p ==> !(BEGIN <= s[q..]) && !(CONTEXT <= s[q..])
    ensures ParseOutside(s, active) == seq(p, i requires 0 <= i < p => Text(s[i])) + ParseOutside(s[p..], active)
    decreases p
  {
    hide ParseOutside;
    assert s[0..] == s;
    if p > 0 {
      assert forall q :: 0 <= q < p - 1 ==> s[1..][q..] == s[q + 1..];
      TextBeforeFirstMarker(s[1..], active, p - 1);
      assert s[1..][p - 1..] == s[p..];
      assert [s[0]] + s[1..] == s;
      TextIsRecognised(s[0], s[1..], active);
    }
  }

  /** All bodies framed under a name. */
  function Bodies(ps: seq<Piece>, name: string): string
  {
    if ps == [] then "" else (if ps[0].Frame? && ps[0].name == name then ps[0].body else "") + Bodies(ps[1..], name)
  }

  /** The prefix of a text that a name's remaining room admits. */
  function FirstBytes(s: string, room: int): string
  {
    if room <= 0 then "" else if |s| <= room then s else s[..room]
  }

  /** What stays of a piece: context lines go, frames carry their name, and bodies what is admitted of them. */
  function KeptPiece(p: Piece, counts: Counts): seq<Piece> {
    match p
    case ContextLine(_) => []
    case Frame(_, name, body, closed) => [Frame(name, name, Admitted(counts, name, body), closed)]
    case _ => [p]
  }

  function Kept(ps: seq<Piece>, counts: Counts): seq<Piece> {
    if ps == [] then [] else KeptPiece(ps[0], counts) + Kept(ps[1..], ChargePiece(ps[0], counts))
  }

  /** What is printed is the text of the pieces that stay. */
  lemma {:induction false} RenderIsKept(ps: seq<Piece>, counts: Counts)
    ensures Render(ps, counts) == Source(Kept(ps, counts))
  {
    hide Admitted, Charge, Source;
    if ps == [] {
      SourceOfNone();
    } else {
      var rest := Kept(ps[1..], ChargePiece(ps[0], counts));
      RenderIsKept(ps[1..], ChargePiece(ps[0], counts));
      match ps[0]
      case ContextLine(_) => assert [] + rest == rest;
      case Frame(_, name, body, closed) => SourceFrom(Frame(name, name, Admitted(counts, name, body), closed), rest);
      case _ => SourceFrom(ps[0], rest);
    }
  }

  lemma SourceOfNone()
    ensures Source([]) == ""
  {
  }

  /** Across any interleaving of frames, what stays under a name is the first 4096 bytes of everything framed
      under it, less what was kept before. */
  lemma {:induction false} CapacityPerName(ps: seq<Piece>, counts: Counts, name: string)
    ensures Bodies(Kept(ps, counts), name) == FirstBytes(Bodies(ps, name), CAPACITY - Count(counts, name))
  {
    hide Admitted, Charge, FirstBytes;
    if ps == [] {
      NothingFramed(CAPACITY - Count(counts, name));
    } else {
      var p := ps[0];
      var rest := Kept(ps[1..], ChargePiece(p, counts));
      CapacityPerName(ps[1..], ChargePiece(p, counts), name);
      KeptFrom(p, rest, counts, name);
      if p.Frame? && p.name == name {
        AdmittedIsFirstBytes(counts, name, p.body, name);
        FirstBytesAppend(p.body, Bodies(ps[1..], name), CAPACITY - Count(counts, name));
      } else {
        if p.Frame? {
          AdmittedIsFirstBytes(counts, p.name, p.body, name);
        }
        assert Bodies(ps, name) == Bodies(ps[1..], name);
        assert Bodies(KeptPiece(p, counts) + rest, name) == Bodies(rest, name);
      }
    }
  }

  lemma NothingFramed(room: int)
    ensures FirstBytes("", room) == ""
  {
  }

  lemma FirstBytesAppend(a: string, b: string, room: int)
    ensures FirstBytes(a + b, room) == FirstBytes(a, room) + FirstBytes(b, room - |FirstBytes(a, room)|)
  {
  }

  /** Charging a frame takes from its own name's room what was admitted. */
  lemma AdmittedIsFirstBytes(counts: Counts, name: string, body: string, other: string)
    ensures Admitted(counts, name, body) == FirstBytes(body, CAPACITY - Count(counts, name))
    ensures Count(Charge(counts, name, body), other) ==
      Count(counts, other) + if other == name then |Admitted(counts, name, body)| else 0
  {
  }

  lemma KeptFrom(p: Piece, rest: seq<Piece>, counts: Counts, name: string)
    ensures Bodies(KeptPiece(p, counts) + rest, name) ==
      (if p.Frame? && p.name == name then Admitted(counts, name, p.body) else "") + Bodies(rest, name)
  {
    hide Admitted;
    if p.ContextLine? {
      assert [] + rest == rest;
    }
  }

  /** Over a whole run, what is printed is what stays, and that is the first 4096 bytes under each name. */
  lemma WholeRunCapacity(s: string, name: string)
    ensures Batch(s) == Source(Kept(ParseOutside(s, ""), map[]))
    ensures Bodies(Kept(ParseOutside(s, ""), map[]), name) == FirstBytes(Bodies(ParseOutside(s, ""), name), 4096)
  {
    hide ParseOutside, FirstBytes, Kept, Source, Render;
    RenderIsKept(ParseOutside(s, ""), map[]);
    CapacityPerName(ParseOutside(s, ""), map[], name);
  }

  /** Everything framed fits. */
  ghost predicate Fits(ps: seq<Piece>, counts: Counts) {
    forall name: string :: Count(counts, name) + |Bodies(ps, name)| <= CAPACITY
  }

  lemma FitsFrom(ps: seq<Piece>, counts: Counts)
    requires ps != [] && Fits(ps, counts)
    ensures Fits(ps[1..], ChargePiece(ps[0], counts))
    ensures ps[0].Frame? ==> Admitted(counts, ps[0].name, ps[0].body) == ps[0].body
  {
    hide Admitted, Charge;
    var p := ps[0];
    if p.Frame? {
      assert Count(counts, p.name) + |Bodies(ps, p.name)| <= CAPACITY;
      AdmittedIsFirstBytes(counts, p.name, p.body, p.name);
    }
    forall name: string
      ensures Count(ChargePiece(p, counts), name) + |Bodies(ps[1..], name)| <= CAPACITY
    {
      assert Count(counts, name) + |Bodies(ps, name)| <= CAPACITY;
      if p.Frame? {
        AdmittedIsFirstBytes(counts, p.name, p.body, name);
      }
    }
  }

  /** Not a context line, and named by its own header. */
  predicate SpeaksForItself(p: Piece) {
    !p.ContextLine? && (p.Frame? ==> p.name == p.header)
  }

  /** A text with no context lines, whose frames are named by their headers and fit, is printed as it is. */
  lemma {:induction false} FittingTextIsKept(ps: seq<Piece>, counts: Counts)
    requires Fits(ps, counts) && forall i :: 0 <= i < |ps| ==> SpeaksForItself(ps[i])
    ensures Kept(ps, counts) == ps
  {
    hide Fits, Admitted, ChargePiece, SpeaksForItself, KeptPiece;
    if ps != [] {
      FitsFrom(ps, counts);
      PieceIsKept(ps[0], counts);
      FittingTextIsKept(ps[1..], ChargePiece(ps[0], counts));
    }
  }

  lemma PieceIsKept(p: Piece, counts: Counts)
    requires SpeaksForItself(p) && (p.Frame? ==> Admitted(counts, p.name, p.body) == p.body)
    ensures KeptPiece(p, counts) == [p]
  {
  }

  lemma FittingTextIsPrinted(s: string)
    requires var ps := ParseOutside(s, ""); Fits(ps, map[]) && forall i :: 0 <= i < |ps| ==> SpeaksForItself(ps[i])
    ensures Batch(s) == s
  {
    hide ParseOutside, Fits, SpeaksForItself, Kept, Source, Render;
    RenderIsKept(ParseOutside(s, ""), map[]);
    FittingTextIsKept(ParseOutside(s, ""), map[]);
    ParseIsLossless(s, "");
  }
}
