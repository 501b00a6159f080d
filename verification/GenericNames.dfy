/** Names of generic instances, `base<arg,arg>`, and getting the arguments back out of one. */
module GenericNames {
  import opened Collections

  function Join(args: seq<string>): string {
    if args == [] then ""
    else if |args| == 1 then args[0]
    else args[0] + "," + Join(args[1..])
  }

  function Mangled(base: string, args: seq<string>): string {
    base + "<" + Join(args) + ">"
  }

  lemma {:induction false} JoinOneMore(args: seq<string>, arg: string)
    requires args != []
    ensures Join(args + [arg]) == Join(args) + "," + arg
  {
    if |args| > 1 {
      assert (args + [arg])[1..] == args[1..] + [arg];
      JoinOneMore(args[1..], arg);
    } else {
      assert (args + [arg])[1..] == [arg];
    }
  }

  method MangledName(base: string, args: seq<string>) returns (result: string)
    ensures result == Mangled(base, args)
  {
    result := base + "<";
    for i := 0 to |args|
      invariant result == base + "<" + Join(args[..i])
    {
      assert args[..i + 1] == args[..i] + [args[i]];
      if i != 0 {
        result := result + ",";
        JoinOneMore(args[..i], args[i]);
      }
      result := result + args[i];
    }
    assert args[..|args|] == args;
    result := result + ">";
  }

  /** The text before the first angle bracket is the base, and what is between it and the last one the arguments. */
  lemma MangledParts(base: string, args: seq<string>)
    requires '<' !in base
    ensures var name := Mangled(base, args);
      && FirstIndex(name, '<') == Some(|base|) && name[..|base|] == base
      && name[|name| - 1] == '>' && name[|base| + 1..|name| - 1] == Join(args)
  {
    var name := Mangled(base, args);
    assert name[..|base|] == base && name[|base|] == '<';
    FirstIndexIs(name, '<', |base|);
  }

  /** So different bases never share a name. */
  lemma NamesTellBasesApart(base: string, args: seq<string>, base': string, args': seq<string>)
    requires '<' !in base && '<' !in base' && Mangled(base, args) == Mangled(base', args')
    ensures base == base' && Join(args) == Join(args')
  {
    MangledParts(base, args);
    MangledParts(base', args');
  }

  /** One character further: a closing bracket with nothing open changes nothing. */
  function Deeper(depth: nat, c: char): nat {
    if c == '<' then depth + 1
    else if c == '>' && depth > 0 then depth - 1
    else depth
  }

  /** The bracket depth a text ends at, unless it has a comma outside brackets. */
  function Scan(s: string, depth: nat): Option<nat> {
    if s == "" then Some(depth)
    else if s[0] == ',' && depth == 0 then None
    else Scan(s[1..], Deeper(depth, s[0]))
  }

  /** Cutting a text at its commas outside brackets; `piece` is what the current cut holds so far. */
  function Split(piece: string, depth: nat, rest: string): seq<string>
    decreases |rest|
  {
    if rest == "" then if piece == "" then [] else [piece]
    else if rest[0] == ',' && depth == 0 then [piece] + Split("", 0, rest[1..])
    else Split(piece + [rest[0]], Deeper(depth, rest[0]), rest[1..])
  }

  function GenericArgs(mangled: string): seq<string> {
    match FirstIndex(mangled, '<')
    case None => []
    case Some(open) =>
      if mangled[|mangled| - 1] != '>' then []
      else if open + 1 > |mangled| - 1 then []
      else Split("", 0, mangled[open + 1..|mangled| - 1])
  }

  /** A name without an opening bracket, or that does not end in a closing one, has no arguments. */
  lemma PlainNamesHaveNoArgs(mangled: string)
    requires '<' !in mangled || mangled[|mangled| - 1] != '>'
    ensures GenericArgs(mangled) == []
  {
  }

  /** One step of the scan. */
  lemma SplitStep(s: string, start: nat, i: nat, last: nat, depth: nat)
    requires start <= i < last <= |s|
    ensures Split(s[start..i], depth, s[i..last]) ==
      if s[i] == ',' && depth == 0 then [s[start..i]] + Split("", 0, s[i + 1..last])
      else Split(s[start..i + 1], Deeper(depth, s[i]), s[i + 1..last])
  {
    assert s[i..last][1..] == s[i + 1..last];
    assert s[start..i + 1] == s[start..i] + [s[i]];
  }

  lemma SplitEnd(piece: string, depth: nat)
    ensures Split(piece, depth, "") == if piece == "" then [] else [piece]
  {
  }

  method GenericArgsFromName(mangled: string) returns (args: seq<string>)
    ensures args == GenericArgs(mangled)
  {
    hide Split, FirstIndex;
    args := [];
    var open := FindFirst(mangled, '<');
    if open.None? || mangled[|mangled| - 1] != '>' {
      return;
    }
    var start, depth: nat, last := open.value + 1, 0, |mangled| - 1;
    ghost var inside := mangled[start..last];
    assert mangled[start..start] == "" && [] + Split("", 0, inside) == Split("", 0, inside);
    for i := start to last
      invariant start <= i && open.value < start
      invariant args + Split(mangled[start..i], depth, mangled[i..last]) == Split("", 0, inside)
    {
      var current := mangled[i];
      SplitStep(mangled, start, i, last, depth);
      if current == '<' {
        depth := depth + 1;
      } else if current == '>' {
        if depth > 0 {
          depth := depth - 1;
        }
      } else if current == ',' && depth == 0 {
        args := args + [mangled[start..i]];
        start := i + 1;
        assert mangled[start..i + 1] == "";
      }
    }
    SplitEnd(mangled[start..last], depth);
    assert mangled[last..last] == "";
    if start < last {
      args := args + [mangled[start..last]];
    }
  }

  lemma {:induction false} ScanAppend(s: string, t: string, depth: nat)
    ensures Scan(s + t, depth) == match Scan(s, depth) case None => None case Some(d) => Scan(t, d)
  {
    if s == "" {
      assert s + t == t;
    } else {
      assert (s + t)[1..] == s[1..] + t;
      if !(s[0] == ',' && depth == 0) {
        ScanAppend(s[1..], t, Deeper(depth, s[0]));
      }
    }
  }

  /** No piece has a comma outside brackets, and all but the last close what they open. */
  predicate Uncut(args: seq<string>) {
    && (forall i :: 0 <= i < |args| - 1 ==> Scan(args[i], 0) == Some(0))
    && (args != [] ==> Scan(args[|args| - 1], 0).Some?)
  }

  predicate EndsEmpty(args: seq<string>) {
    args != [] && args[|args| - 1] == ""
  }

  lemma {:induction false} PiecesAreUncut(piece: string, depth: nat, rest: string)
    requires Scan(piece, 0) == Some(depth)
    ensures Uncut(Split(piece, depth, rest))
    decreases |rest|
  {
    if rest != "" {
      if rest[0] == ',' && depth == 0 {
        PiecesAreUncut("", 0, rest[1..]);
      } else {
        ScanAppend(piece, [rest[0]], 0);
        assert [rest[0]][1..] == "";
        PiecesAreUncut(piece + [rest[0]], Deeper(depth, rest[0]), rest[1..]);
      }
    }
  }

  /** A text without commas outside brackets joins the current piece whole. */
  lemma {:induction false} SplitThrough(piece: string, depth: nat, s: string, rest: string)
    requires Scan(s, depth).Some?
    ensures Split(piece, depth, s + rest) == Split(piece + s, Scan(s, depth).value, rest)
    decreases |s|
  {
    if s == "" {
      assert s + rest == rest && piece + s == piece;
    } else {
      assert (s + rest)[1..] == s[1..] + rest;
      assert piece + [s[0]] + s[1..] == piece + s;
      SplitThrough(piece + [s[0]], Deeper(depth, s[0]), s[1..], rest);
    }
  }

  /** Joining and cutting again loses only an empty last argument. */
  lemma {:induction false} SplitJoined(args: seq<string>)
    requires Uncut(args)
    ensures Split("", 0, Join(args)) == if EndsEmpty(args) then args[..|args| - 1] else args
  {
    hide Scan;
    if args != [] {
      var arg := args[0];
      if |args| == 1 {
        assert arg + "" == arg && "" + arg == arg;
        SplitThrough("", 0, arg, "");
      } else {
        var rest := "," + Join(args[1..]);
        assert arg + "," + Join(args[1..]) == arg + rest && "" + arg == arg;
        SplitThrough("", 0, arg, rest);
        assert rest[1..] == Join(args[1..]);
        SplitJoined(args[1..]);
        assert [arg] + args[1..] == args;
        assert [arg] + args[1..][..|args| - 2] == args[..|args| - 1];
      }
    }
  }

  /**
   * The arguments come back exactly as they went in, however many there are, if and only if no
   * argument has a comma outside angle brackets, every argument but the last closes the brackets it
   * opens, and the last is not empty.
   */
  lemma RoundTripIff(base: string, args: seq<string>)
    requires '<' !in base
    ensures GenericArgs(Mangled(base, args)) == args <==> Uncut(args) && !EndsEmpty(args)
  {
    var name := Mangled(base, args);
    assert name[..|base|] == base && name[|base|] == '<';
    FirstIndexIs(name, '<', |base|);
    assert name[|base| + 1..|name| - 1] == Join(args);
    if Uncut(args) {
      SplitJoined(args);
    }
    PiecesAreUncut("", 0, Join(args));
  }

  // ---- Names within names ----

  /** How a type is named: by a word, or as an instance of a base for types so named. */
  datatype Name = Word(text: string) | Instance(base: string, args: seq<Name>)

  function Spelled(n: Name): string {
    match n
    case Word(text) => text
    case Instance(base, args) => Mangled(base, SpelledAll(args))
  }

  function SpelledAll(ns: seq<Name>): (r: seq<string>)
    ensures |r| == |ns|
    ensures forall i :: 0 <= i < |ns| ==> r[i] == Spelled(ns[i])
  {
    if ns == [] then [] else [Spelled(ns[0])] + SpelledAll(ns[1..])
  }

  /** A word with no angle bracket and no comma. */
  predicate IsPlain(text: string) {
    forall i :: 0 <= i < |text| ==> text[i] !in "<>,"
  }

  predicate AllPlain(n: Name) {
    match n
    case Word(text) => text != "" && IsPlain(text)
    case Instance(base, args) => IsPlain(base) && forall i :: 0 <= i < |args| ==> AllPlain(args[i])
  }

  lemma {:induction false} ScanPlain(s: string, depth: nat)
    requires IsPlain(s)
    ensures Scan(s, depth) == Some(depth)
  {
    if s != "" {
      assert s[0] !in "<>,";
      assert "<>,"[0] == '<' && "<>,"[1] == '>' && "<>,"[2] == ',';
      ScanPlain(s[1..], depth);
    }
  }

  lemma {:induction false} ScanJoin(args: seq<string>, depth: nat)
    requires depth > 0 && forall i :: 0 <= i < |args| ==> Scan(args[i], depth) == Some(depth)
    ensures Scan(Join(args), depth) == Some(depth)
  {
    if |args| > 1 {
      ScanJoin(args[1..], depth);
      var rest := "," + Join(args[1..]);
      assert args[0] + "," + Join(args[1..]) == args[0] + rest && rest[1..] == Join(args[1..]);
      ScanAppend(args[0], rest, depth);
    }
  }

  /** A name of plain words closes the brackets it opens and has no comma outside them, however deep it goes. */
  lemma {:induction false} NameIsUncut(n: Name, depth: nat)
    requires AllPlain(n)
    ensures Scan(Spelled(n), depth) == Some(depth) && Spelled(n) != ""
  {
    match n
    case Word(text) => ScanPlain(text, depth);
    case Instance(base, args) =>
      var inner := SpelledAll(args);
      forall i | 0 <= i < |args|
        ensures Scan(inner[i], depth + 1) == Some(depth + 1)
      {
        NameIsUncut(args[i], depth + 1);
      }
      ScanPlain(base, depth);
      ScanJoin(inner, depth + 1);
      assert Spelled(n) == base + ("<" + (Join(inner) + ">"));
      ScanAppend(base, "<" + (Join(inner) + ">"), depth);
      assert ("<" + (Join(inner) + ">"))[1..] == Join(inner) + ">";
      ScanAppend(Join(inner), ">", depth + 1);
      assert ">"[1..] == "";
  }

  /** The arguments of an instance come back from its name, instances of instances included. */
  lemma NestedRoundTrip(base: string, args: seq<Name>)
    requires AllPlain(Instance(base, args))
    ensures GenericArgs(Spelled(Instance(base, args))) == SpelledAll(args)
  {
    var spelled := SpelledAll(args);
    forall i | 0 <= i < |args|
      ensures Scan(spelled[i], 0) == Some(0) && spelled[i] != ""
    {
      NameIsUncut(args[i], 0);
    }
    PlainHasNoBracket(base);
    RoundTripIff(base, spelled);
  }

  lemma PlainHasNoBracket(text: string)
    requires IsPlain(text)
    ensures '<' !in text
  {
    assert "<>,"[0] == '<';
  }

  lemma BracketTellsInstances(n: Name)
    requires AllPlain(n)
    ensures '<' in Spelled(n) <==> n.Instance?
  {
    match n
    case Word(text) => PlainHasNoBracket(text);
    case Instance(base, _) => assert Spelled(n)[|base|] == '<';
  }

  /** So a name has one reading: different types never share a name. */
  lemma {:induction false} NamesAreUnambiguous(a: Name, b: Name)
    requires AllPlain(a) && AllPlain(b) && Spelled(a) == Spelled(b)
    ensures a == b
  {
    BracketTellsInstances(a);
    BracketTellsInstances(b);
    if a.Instance? {
      PlainHasNoBracket(a.base);
      PlainHasNoBracket(b.base);
      NamesTellBasesApart(a.base, SpelledAll(a.args), b.base, SpelledAll(b.args));
      NestedRoundTrip(a.base, a.args);
      NestedRoundTrip(b.base, b.args);
      forall i | 0 <= i < |a.args|
        ensures a.args[i] == b.args[i]
      {
        assert Spelled(a.args[i]) == SpelledAll(a.args)[i] == SpelledAll(b.args)[i] == Spelled(b.args[i]);
        NamesAreUnambiguous(a.args[i], b.args[i]);
      }
    }
  }

  /** A function type spells its parameters with commas outside angle brackets, and comes back in two. */
  lemma FunctionTypeArgumentIsCut()
    ensures !Uncut(["fn(a, b): c"])
    ensures GenericArgs(Mangled("map", ["fn(a, b): c"])) != ["fn(a, b): c"]
  {
    var arg := "fn(a, b): c";
    assert arg == "fn(a" + ", b): c";
    ScanAppend("fn(a", ", b): c", 0);
    RoundTripIff("map", [arg]);
  }
}
