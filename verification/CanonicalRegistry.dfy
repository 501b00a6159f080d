/** The registry of canonical opaque tags and the text it is persisted as. */
module CanonicalRegistry {
  import opened Collections

  const U32_LIMIT: nat := 0x1_0000_0000
  const U64_LIMIT: nat := 0x1_0000_0000_0000_0000

  type U32 = n: nat | n < U32_LIMIT
  type U64 = n: nat | n < U64_LIMIT

  datatype CanonicalId = CanonicalId(hi: U64, lo: U64)

  datatype Registry = Registry(tagOf: map<CanonicalId, U32>, idOf: map<U32, CanonicalId>) {
    /** The two maps are inverse to each other and never hold the tag 0, which means "none". */
    predicate Valid() {
      && (forall id :: id in tagOf ==> tagOf[id] != 0 && tagOf[id] in idOf && idOf[tagOf[id]] == id)
      && (forall tag :: tag in idOf ==> idOf[tag] in tagOf && tagOf[idOf[tag]] == tag)
    }

    /** The tags in use are exactly 1..n. */
    predicate Dense() {
      forall tag: U32 :: tag in idOf <==> 1 <= tag <= |tagOf|
    }

    /** The 32-bit tag a new id would be given. */
    function NextTag(): U32 {
      (|tagOf| % U32_LIMIT + 1) % U32_LIMIT
    }

    function Add(id: CanonicalId, tag: U32): Registry {
      Registry(tagOf[id := tag], idOf[tag := id])
    }

    /** The registry after asking for the tag of `id`. */
    function Assign(id: CanonicalId): Registry {
      if id in tagOf || NextTag() == 0 || NextTag() in idOf then this else Add(id, NextTag())
    }

    /** The tag the caller is told, 0 when there is none. */
    function Told(id: CanonicalId): U32 {
      if id in Assign(id).tagOf then Assign(id).tagOf[id] else 0
    }
  }

  const EMPTY := Registry(map[], map[])

  lemma NextTagBelow32Bits(r: Registry)
    requires |r.tagOf| + 1 < U32_LIMIT
    ensures r.NextTag() == |r.tagOf| + 1
  {
  }

  lemma AssignKeepsInverse(r: Registry, id: CanonicalId)
    requires r.Valid()
    ensures r.Assign(id).Valid()
    ensures forall other :: other in r.tagOf ==> other in r.Assign(id).tagOf && r.Assign(id).tagOf[other] == r.tagOf[other]
    ensures r.Told(id) == 0 <==> r.Assign(id) == r && id !in r.tagOf
  {
  }

  lemma AssignGrowth(r: Registry, id: CanonicalId)
    ensures |r.Assign(id).tagOf| == |r.tagOf| + if id in r.Assign(id).tagOf && id !in r.tagOf then 1 else 0
    ensures r.Assign(id).tagOf.Keys <= r.tagOf.Keys + {id}
  {
    if r.Assign(id) != r {
      assert r.Assign(id).tagOf.Keys == r.tagOf.Keys + {id};
    }
  }

  /** From a dense registry a new id always gets a tag, the next one, and the registry stays dense. */
  lemma AssignKeepsDense(r: Registry, id: CanonicalId)
    requires r.Valid() && r.Dense() && (id in r.tagOf || |r.tagOf| + 1 < U32_LIMIT)
    ensures r.Assign(id).Dense()
    ensures r.Told(id) == if id in r.tagOf then r.tagOf[id] else |r.tagOf| + 1
    ensures r.Told(id) != 0 && id in r.Assign(id).tagOf
  {
    if id !in r.tagOf {
      NextTagBelow32Bits(r);
      AssignGrowth(r, id);
    }
  }

  function AssignAll(r: Registry, ids: seq<CanonicalId>): Registry {
    if ids == [] then r else AssignAll(r, ids[..|ids| - 1]).Assign(ids[|ids| - 1])
  }

  predicate AllNew(r: Registry, ids: seq<CanonicalId>) {
    && (forall i :: 0 <= i < |ids| ==> ids[i] !in r.tagOf)
    && (forall i, j :: 0 <= i < j < |ids| ==> ids[i] != ids[j])
  }

  /** However many ids are asked for, in whatever order and with repeats, no tag already given changes. */
  lemma {:induction false} TagsNeverChange(r: Registry, ids: seq<CanonicalId>, id: CanonicalId)
    requires r.Valid() && id in r.tagOf
    ensures AssignAll(r, ids).Valid()
    ensures id in AssignAll(r, ids).tagOf && AssignAll(r, ids).tagOf[id] == r.tagOf[id]
  {
    if ids != [] {
      TagsNeverChange(r, ids[..|ids| - 1], id);
      AssignKeepsInverse(AssignAll(r, ids[..|ids| - 1]), ids[|ids| - 1]);
    }
  }

  predicate AllTagged(s: Registry, ids: seq<CanonicalId>) {
    forall i :: 0 <= i < |ids| ==> ids[i] in s.tagOf
  }

  /** A registry that starts empty hands out 1, 2, 3, ..., and gives every id a tag exactly when it is
      asked for fewer than 2^32 different ones. */
  lemma {:induction false} FromEmptyTagsAreDense(ids: seq<CanonicalId>)
    ensures AssignAll(EMPTY, ids).Valid() && AssignAll(EMPTY, ids).Dense()
    ensures AssignAll(EMPTY, ids).tagOf.Keys <= Elements(ids)
    ensures AllTagged(AssignAll(EMPTY, ids), ids) <==> |Elements(ids)| < U32_LIMIT
  {
    hide Registry.Valid, Registry.Dense, AssignAll;
    FromEmptyAllOrFull(ids);
    var keys := AssignAll(EMPTY, ids).tagOf.Keys;
    assert |keys| == |AssignAll(EMPTY, ids).tagOf|;
    if keys != Elements(ids) {
      ProperlyLarger(keys, Elements(ids));
      var id :| id in Elements(ids) && id !in keys;
      assert exists i :: 0 <= i < |ids| && ids[i] == id;
    }
  }

  function Elements(ids: seq<CanonicalId>): set<CanonicalId> {
    set id | id in ids
  }

  lemma ProperlyLarger<T>(a: set<T>, b: set<T>)
    requires a < b
    ensures |a| < |b| && exists x :: x in b && x !in a
  {
    assert b == a + (b - a);
    assert !(b <= a);
  }

  /** From a dense registry a request is met, or every tag is given out and nothing changes. */
  lemma AssignUntilFull(r: Registry, id: CanonicalId)
    requires r.Valid() && r.Dense() && |r.tagOf| < U32_LIMIT
    ensures r.Assign(id).Valid() && r.Assign(id).Dense() && |r.tagOf| <= |r.Assign(id).tagOf| < U32_LIMIT
    ensures r.Assign(id).tagOf.Keys == r.tagOf.Keys + {id} || (r.Assign(id) == r && |r.tagOf| == U32_LIMIT - 1)
  {
    AssignGrowth(r, id);
    AssignKeepsInverse(r, id);
    if id in r.tagOf {
      assert r.tagOf.Keys == r.tagOf.Keys + {id};
    } else if |r.tagOf| + 1 < U32_LIMIT {
      AssignKeepsDense(r, id);
      assert r.Assign(id).tagOf.Keys == r.tagOf.Keys + {id};
    }
  }

  lemma LastElement(ids: seq<CanonicalId>)
    ensures Elements(ids) == if ids == [] then {} else Elements(ids[..|ids| - 1]) + {ids[|ids| - 1]}
  {
    assert ids != [] ==> ids == ids[..|ids| - 1] + [ids[|ids| - 1]];
  }

  /** Either everything asked for has a tag, or all 2^32 - 1 tags are given out. */
  lemma {:induction false} FromEmptyAllOrFull(ids: seq<CanonicalId>)
    ensures AssignAll(EMPTY, ids).Valid() && AssignAll(EMPTY, ids).Dense()
    ensures |AssignAll(EMPTY, ids).tagOf| < U32_LIMIT && AssignAll(EMPTY, ids).tagOf.Keys <= Elements(ids)
    ensures AssignAll(EMPTY, ids).tagOf.Keys == Elements(ids) || |AssignAll(EMPTY, ids).tagOf| == U32_LIMIT - 1
  {
    hide Registry.Valid, Registry.Dense, Registry.Assign, Elements;
    if ids == [] {
      EmptyIsDense();
      LastElement(ids);
    } else {
      var front, last := ids[..|ids| - 1], ids[|ids| - 1];
      FromEmptyAllOrFull(front);
      AssignUntilFull(AssignAll(EMPTY, front), last);
      LastElement(ids);
    }
  }

  lemma EmptyIsDense()
    ensures EMPTY.Valid() && EMPTY.Dense()
  {
  }

  /** The tags after the current count that n new ids would be given are all free. */
  predicate FreeAfter(r: Registry, n: nat) {
    forall tag: U32 :: |r.tagOf| < tag <= |r.tagOf| + n ==> tag !in r.idOf
  }

  /** What holds of the registry s that r becomes once all of n new ids have got tags. */
  predicate GrownBy(r: Registry, s: Registry, n: nat) {
    && |s.tagOf| == |r.tagOf| + n
    && forall tag: U32 :: tag in s.idOf <==> tag in r.idOf || |r.tagOf| < tag <= |r.tagOf| + n
  }

  lemma AssignNew(s: Registry, id: CanonicalId, tag: U32)
    requires id !in s.tagOf && tag == |s.tagOf| + 1
    ensures s.Assign(id) == if tag in s.idOf then s else s.Add(id, tag)
  {
    NextTagBelow32Bits(s);
  }

  lemma OneMore(r: Registry, s: Registry, n: nat, id: CanonicalId)
    requires GrownBy(r, s, n) && FreeAfter(r, n) && id !in s.tagOf && |r.tagOf| + n + 1 < U32_LIMIT
    ensures id in s.Assign(id).tagOf <==> FreeAfter(r, n + 1)
    ensures id in s.Assign(id).tagOf ==> GrownBy(r, s.Assign(id), n + 1)
  {
    var tag: U32 := |r.tagOf| + n + 1;
    AssignNew(s, id, tag);
  }

  lemma {:induction false} TaggedWasAskedFor(r: Registry, ids: seq<CanonicalId>, id: CanonicalId)
    requires id in AssignAll(r, ids).tagOf
    ensures id in r.tagOf || id in ids
  {
    if ids != [] {
      AssignGrowth(AssignAll(r, ids[..|ids| - 1]), ids[|ids| - 1]);
      if id != ids[|ids| - 1] {
        TaggedWasAskedFor(r, ids[..|ids| - 1], id);
      }
    }
  }

  lemma LastIsNew(r: Registry, ids: seq<CanonicalId>)
    requires AllNew(r, ids) && ids != []
    ensures AllNew(r, ids[..|ids| - 1]) && ids[|ids| - 1] !in AssignAll(r, ids[..|ids| - 1]).tagOf
  {
    if ids[|ids| - 1] in AssignAll(r, ids[..|ids| - 1]).tagOf {
      TaggedWasAskedFor(r, ids[..|ids| - 1], ids[|ids| - 1]);
    }
  }

  /**
   * Tags are handed out by counting, so a registry with gaps runs into a tag already taken: n new
   * ids all get tags if and only if none of the n tags after the current count is in use.
   */
  lemma {:induction false} NewIdsGetTagsIff(r: Registry, ids: seq<CanonicalId>)
    requires AllNew(r, ids) && |r.tagOf| + |ids| < U32_LIMIT
    ensures AllTagged(AssignAll(r, ids), ids) <==> FreeAfter(r, |ids|)
    ensures AllTagged(AssignAll(r, ids), ids) ==> GrownBy(r, AssignAll(r, ids), |ids|)
  {
    hide Registry.Told, GrownBy;
    if ids == [] {
      NothingMore(r);
    } else {
      var front, last := ids[..|ids| - 1], ids[|ids| - 1];
      LastIsNew(r, ids);
      NewIdsGetTagsIff(r, front);
      var s := AssignAll(r, front);
      if AllTagged(s, front) {
        OneMore(r, s, |front|, last);
      }
    }
  }

  lemma NothingMore(r: Registry)
    ensures GrownBy(r, r, 0) && FreeAfter(r, 0) && AllTagged(r, [])
  {
  }

  // ---- the text the registry is persisted as ----

  function Digit(d: nat): (c: char)
    requires d < 16
    ensures DigitValue(c) == Some(d)
  {
    if d < 10 then '0' + d as char else 'a' + (d - 10) as char
  }

  /** Decimal and hexadecimal digits, letters of either case. */
  function DigitValue(c: char): (d: Option<nat>)
    ensures d.Some? ==> d.value < 16
  {
    if '0' <= c <= '9' then Some((c - '0') as nat)
    else if 'a' <= c <= 'f' then Some((c - 'a') as nat + 10)
    else if 'A' <= c <= 'F' then Some((c - 'A') as nat + 10)
    else None
  }

  type Base = b: nat | b == 10 || b == 16 witness 10

  function Times(n: nat, base: Base): nat {
    if base == 10 then 10 * n else 16 * n
  }

  /** Unpadded, lower case. */
  function Print(n: nat, base: Base): (s: string)
    ensures |s| > 0
    ensures forall i :: 0 <= i < |s| ==> DigitValue(s[i]).Some?
  {
    if n < base then [Digit(n)]
    else if base == 10 then Print(n / 10, base) + [Digit(n % 10)]
    else Print(n / 16, base) + [Digit(n % 16)]
  }

  /** The value of a nonempty string of digits of the base, if it is nothing else. */
  function Value(s: string, base: Base): Option<nat> {
    if s == [] then None
    else
      match DigitValue(s[|s| - 1])
      case None => None
      case Some(d) =>
        if d >= base then None
        else if |s| == 1 then Some(d)
        else
          match Value(s[..|s| - 1], base)
          case None => None
          case Some(high) => Some(Times(high, base) + d)
  }

  function ParseBelow(s: string, base: Base, limit: nat): (r: Option<nat>)
    ensures r.Some? ==> r.value < limit
  {
    match Value(s, base)
    case None => None
    case Some(n) => if n < limit then Some(n) else None
  }

  lemma {:induction false} PrintParses(n: nat, base: Base)
    ensures Value(Print(n, base), base) == Some(n)
  {
    if n < base {
      assert DigitValue(Digit(n)) == Some(n);
    } else if base == 10 {
      PrintParses(n / 10, base);
    } else {
      PrintParses(n / 16, base);
    }
  }

  /** A string has a value exactly when it is a nonempty string of digits of the base. */
  lemma {:induction false} ValueIff(s: string, base: Base)
    ensures Value(s, base).Some? <==> s != [] && forall c :: c in s ==> DigitValue(c).Some? && DigitValue(c).value < base
  {
    if |s| > 1 {
      ValueIff(s[..|s| - 1], base);
      assert s == s[..|s| - 1] + [s[|s| - 1]];
    }
  }

  function Power(base: Base, n: nat): nat {
    if n == 0 then 1 else Times(Power(base, n - 1), base)
  }

  lemma TimesSum(a: nat, b: nat, v: nat, base: Base)
    ensures Times(a * b + v, base) == a * Times(b, base) + Times(v, base)
  {
  }

  /** Numbers are positional: what comes first counts the base to the power of the digits that follow. */
  lemma {:induction false} ValueOfConcatenation(s: string, t: string, base: Base)
    requires Value(s, base).Some? && Value(t, base).Some?
    ensures Value(s + t, base) == Some(Value(s, base).value * Power(base, |t|) + Value(t, base).value)
    decreases |t|
  {
    var front, c := t[..|t| - 1], t[|t| - 1];
    assert (s + t)[..|s + t| - 1] == s + front;
    if front == [] {
      assert s + front == s;
      assert Power(base, 1) == Times(Power(base, 0), base) == base;
      assert Value(s, base).value * base == Times(Value(s, base).value, base);
    } else {
      ValueOfConcatenation(s, front, base);
      TimesSum(Value(s, base).value, Power(base, |front|), Value(front, base).value, base);
    }
  }

  /** How a line looks: lower-case hexadecimal halves without padding, and a decimal tag. */
  lemma LineFormat()
    ensures RenderLine(CanonicalId(0x1f, 0xa0), 12) == "1f:a0:12"
    ensures Value("1F", 16) == Some(31) && Value("1F", 10) == None && Value("", 10) == None
  {
    assert Print(0x1f, 16) == Print(1, 16) + [Digit(15)] == "1f";
    assert Print(0xa0, 16) == Print(10, 16) + [Digit(0)] == "a0";
    assert Print(12, 10) == Print(1, 10) + [Digit(2)] == "12";
    assert "1F"[..1] == "1";
    assert Value("1", 16) == Some(1);
  }

  function RenderLine(id: CanonicalId, tag: U32): string {
    Print(id.hi, 16) + ":" + Print(id.lo, 16) + ":" + Print(tag, 10)
  }

  function LastIndex(s: string, c: char): (r: Option<nat>)
    ensures r.Some? ==> r.value < |s| && s[r.value] == c && c !in s[r.value + 1..]
    ensures r.None? ==> c !in s
  {
    if s == [] then None
    else if s[|s| - 1] == c then Some(|s| - 1)
    else LastIndex(s[..|s| - 1], c)
  }

  /** A line is split at its first and its last colon; anything malformed is skipped, and so is tag 0. */
  function ParseLine(line: string): (r: Option<(CanonicalId, U32)>)
    ensures r.Some? ==> r.value.1 != 0
  {
    match FirstIndex(line, ':')
    case None => None
    case Some(first) =>
      match LastIndex(line, ':')
      case None => None
      case Some(last) =>
        if first >= last then None
        else
          match (ParseBelow(line[..first], 16, U64_LIMIT), ParseBelow(line[first + 1..last], 16, U64_LIMIT),
                 ParseBelow(line[last + 1..], 10, U32_LIMIT))
          case (Some(hi), Some(lo), Some(tag)) => if tag == 0 then None else Some((CanonicalId(hi, lo), tag))
          case _ => None
  }

  /** Two hexadecimal halves and a nonzero decimal tag in range, set off by colons. */
  predicate Spells(line: string, hi: string, lo: string, t: string, id: CanonicalId, tag: U32) {
    && line == hi + ":" + lo + ":" + t
    && Value(hi, 16) == Some(id.hi) && Value(lo, 16) == Some(id.lo) && Value(t, 10) == Some(tag) && tag != 0
  }

  /** Exactly the lines that spell an id and a tag are read, and as those. */
  lemma ParseLineIff(line: string, id: CanonicalId, tag: U32)
    ensures ParseLine(line) == Some((id, tag)) <==> exists hi, lo, t :: Spells(line, hi, lo, t, id, tag)
  {
    hide Value, FirstIndex, LastIndex, Spells, ParseLine;
    if ParseLine(line) == Some((id, tag)) {
      var hi, lo, t := ReadLineSpells(line, id, tag);
    }
    if hi, lo, t :| Spells(line, hi, lo, t, id, tag) {
      SpelledLineIsRead(line, hi, lo, t, id, tag);
    }
  }

  lemma ReadLineSpells(line: string, id: CanonicalId, tag: U32) returns (hi: string, lo: string, t: string)
    requires ParseLine(line) == Some((id, tag))
    ensures Spells(line, hi, lo, t, id, tag)
  {
    hide Value, FirstIndex, LastIndex;
    var first, last := FirstIndex(line, ':').value, LastIndex(line, ':').value;
    hi, lo, t := line[..first], line[first + 1..last], line[last + 1..];
  }

  lemma SpelledLineIsRead(line: string, hi: string, lo: string, t: string, id: CanonicalId, tag: U32)
    requires Spells(line, hi, lo, t, id, tag)
    ensures ParseLine(line) == Some((id, tag))
  {
    hide Value, FirstIndex, LastIndex;
    ValueHasNoColon(hi, 16);
    ValueHasNoColon(t, 10);
    var last := |hi| + 1 + |lo|;
    assert line[..|hi|] == hi && line[|hi|] == ':' && line[last] == ':' && line[last + 1..] == t;
    assert line[|hi| + 1..last] == lo;
    FirstIndexIs(line, ':', |hi|);
    LastIndexIs(line, ':', last);
  }

  lemma ValueHasNoColon(s: string, base: Base)
    requires Value(s, base).Some?
    ensures ':' !in s
  {
    ValueIff(s, base);
    assert DigitValue(':') == None;
  }

  lemma {:induction false} LastIndexIs(s: string, c: char, i: nat)
    requires i < |s| && s[i] == c && c !in s[i + 1..]
    ensures LastIndex(s, c) == Some(i)
  {
    if i < |s| - 1 {
      var front := s[..|s| - 1];
      assert s[i + 1..] == front[i + 1..] + [s[|s| - 1]];
      LastIndexIs(front, c, i);
    }
  }

  /** A line whose id or tag is already taken is skipped as well. */
  function AddLine(r: Registry, line: string): Registry {
    match ParseLine(line)
    case None => r
    case Some((id, tag)) => if id in r.tagOf || tag in r.idOf then r else r.Add(id, tag)
  }

  /** What a text holds before its first line break, and after it. */
  function FirstLine(text: string): (string, string) {
    match FirstIndex(text, '\n')
    case None => (text, "")
    case Some(i) => (text[..i], text[i + 1..])
  }

  function AddText(r: Registry, text: string): Registry
    decreases |text|
  {
    if text == [] then r else AddText(AddLine(r, FirstLine(text).0), FirstLine(text).1)
  }

  function Render(r: Registry, order: seq<CanonicalId>): string
    requires forall i :: 0 <= i < |order| ==> order[i] in r.tagOf
  {
    if order == [] then ""
    else RenderLine(order[0], r.tagOf[order[0]]) + "\n" + Render(r, order[1..])
  }

  /** Whatever the file holds, loading it leaves the maps inverse to each other, and what is already taken stays. */
  lemma {:induction false} LoadKeepsInverse(r: Registry, text: string)
    requires r.Valid()
    ensures AddText(r, text).Valid()
    ensures forall id :: id in r.tagOf ==> id in AddText(r, text).tagOf && AddText(r, text).tagOf[id] == r.tagOf[id]
    decreases |text|
  {
    if text != [] {
      var (line, rest) := FirstLine(text);
      LoadKeepsInverse(AddLine(r, line), rest);
    }
  }

  lemma RenderedLineParses(id: CanonicalId, tag: U32)
    requires tag != 0
    ensures ParseLine(RenderLine(id, tag)) == Some((id, tag))
    ensures '\n' !in RenderLine(id, tag)
  {
    hide Print, Value, ParseLine;
    var hi, lo, t := Print(id.hi, 16), Print(id.lo, 16), Print(tag, 10);
    PrintParses(id.hi, 16);
    PrintParses(id.lo, 16);
    PrintParses(tag, 10);
    assert Spells(RenderLine(id, tag), hi, lo, t, id, tag);
    ParseLineIff(RenderLine(id, tag), id, tag);
  }

  lemma RenderedFirstLine(line: string, rest: string)
    requires '\n' !in line
    ensures FirstLine(line + "\n" + rest) == (line, rest)
  {
    var text := line + "\n" + rest;
    assert text[..|line|] == line && text[|line|] == '\n' && text[|line| + 1..] == rest;
    FirstIndexIs(text, '\n', |line|);
  }

  /** `order` lists every registered id once. */
  predicate Enumerates(r: Registry, order: seq<CanonicalId>) {
    && (forall i :: 0 <= i < |order| ==> order[i] in r.tagOf)
    && (forall i, j :: 0 <= i < j < |order| ==> order[i] != order[j])
    && (forall id :: id in r.tagOf ==> id in order)
  }

  /** The part of the registry that concerns the given ids. */
  function Restrict(r: Registry, ids: seq<CanonicalId>): Registry
    requires r.Valid()
  {
    Registry(map id | id in r.tagOf && id in ids :: r.tagOf[id],
             map tag | tag in r.idOf && r.idOf[tag] in ids :: r.idOf[tag])
  }

  lemma RestrictMore(r: Registry, done: seq<CanonicalId>, id: CanonicalId)
    requires r.Valid() && id in r.tagOf && id !in done
    ensures id !in Restrict(r, done).tagOf && r.tagOf[id] !in Restrict(r, done).idOf
    ensures Restrict(r, done).Add(id, r.tagOf[id]) == Restrict(r, done + [id])
  {
  }

  lemma HeadIsNew(done: seq<CanonicalId>, order: seq<CanonicalId>)
    requires forall i, j :: 0 <= i < j < |done + order| ==> (done + order)[i] != (done + order)[j]
    requires order != []
    ensures order[0] !in done && done + [order[0]] + order[1..] == done + order
  {
    assert forall i :: 0 <= i < |done| ==> (done + order)[i] == done[i];
    assert (done + order)[|done|] == order[0];
  }

  lemma {:induction false} RenderedTextAdds(r: Registry, done: seq<CanonicalId>, order: seq<CanonicalId>)
    requires r.Valid()
    requires forall i, j :: 0 <= i < j < |done + order| ==> (done + order)[i] != (done + order)[j]
    requires forall i :: 0 <= i < |order| ==> order[i] in r.tagOf
    ensures AddText(Restrict(r, done), Render(r, order)) == Restrict(r, done + order)
    decreases |order|
  {
    hide FirstLine, ParseLine, RenderLine, Restrict, Registry.Add;
    if order == [] {
      assert done + order == done;
    } else {
      HeadIsNew(done, order);
      var id, tag := order[0], r.tagOf[order[0]];
      RenderedLineParses(id, tag);
      RenderedFirstLine(RenderLine(id, tag), Render(r, order[1..]));
      RestrictMore(r, done, id);
      RenderedTextAdds(r, done + [id], order[1..]);
    }
  }

  lemma RestrictAll(r: Registry, order: seq<CanonicalId>)
    requires r.Valid() && Enumerates(r, order)
    ensures Restrict(r, order) == r
  {
    var s := Restrict(r, order);
    assert s.tagOf == r.tagOf;
    assert s.idOf == r.idOf;
  }

  /** Saving a registry and loading the text gives back both maps, in whatever order the lines are written. */
  lemma {:induction false} SaveLoadRoundTrip(r: Registry, order: seq<CanonicalId>)
    requires r.Valid() && Enumerates(r, order)
    ensures AddText(EMPTY, Render(r, order)) == r
  {
    hide AddText, Render;
    assert [] + order == order;
    RestrictAll(r, order);
    RenderedTextAdds(r, [], order);
  }
}
