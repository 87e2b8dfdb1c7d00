/** Which texts `cgp_parse_stream` accepts: a paragraph may be laid out with spaces in
    many places, a list may end in a comma, the last list in an open string, and a string
    in anything behind a NUL. The parser returns a list of paragraphs if and only if the
    text is a layout of them. */
module CgroupGrammar {
  import opened Options
  import opened CgroupText
  import opened CgroupProps

  /** A property as it is spelled, and the spaces around its quotes. */
  datatype Item = Item(before: nat, raw: string, after: nat)

  /** How a paragraph stops: spaces and a newline, spaces and the end of the text, or
      a string that is opened and never closed. */
  datatype Ending = Newline(pad: nat) | TextEnd(pad: nat) | OpenString(pad: nat, junk: string)

  /** From the colon to the opening bracket; `raw` spells the strategy. */
  datatype Head = Head(colon: nat, strategy: nat, value: nat, raw: string, dash: nat, properties: nat, bracket: nat)

  /** From the opening bracket on; `comma`: a comma stands for the closing bracket. */
  datatype List = List(items: seq<Item>, comma: bool, empty: nat, ending: Ending)

  datatype Layout = Layout(name: string, head: Head, list: List)

  function Spaces(n: nat): string {
    if n == 0 then [] else [' '] + Spaces(n - 1)
  }

  function Quote(s: string, t: string): string {
    ['\"'] + (s + (['\"'] + t))
  }

  function RenderEnd(e: Ending, t: string): string {
    match e
    case Newline(n) => Spaces(n) + (['\n'] + t)
    case TextEnd(n) => Spaces(n)
    case OpenString(n, junk) => Spaces(n) + (['\"'] + junk)
  }

  /** A property with its separator. */
  function ItemText(p: Item, c: char, t: string): string {
    Spaces(p.before) + Quote(p.raw, Spaces(p.after) + ([c] + t))
  }

  function RenderItems(ps: seq<Item>, comma: bool, t: string): string
    requires |ps| > 0
  {
    if |ps| > 1 then ItemText(ps[0], ',', RenderItems(ps[1..], comma, t))
    else ItemText(ps[0], if comma then ',' else ']', t)
  }

  function RenderList(l: List, t: string): string {
    if l.items == [] then Spaces(l.empty) + ([']'] + RenderEnd(l.ending, t))
    else RenderItems(l.items, l.comma, RenderEnd(l.ending, t))
  }

  function RenderBracket(h: Head, t: string): string {
    Spaces(h.dash) + ("\n - " + (Spaces(h.properties) + ("\"properties\":" + (Spaces(h.bracket) + ("[" + t)))))
  }

  function RenderValue(h: Head, t: string): string {
    Spaces(h.value) + Quote(h.raw, RenderBracket(h, t))
  }

  function RenderHead(h: Head, t: string): string {
    Spaces(h.colon) + (":\n - " + (Spaces(h.strategy) + ("\"strategy\":" + RenderValue(h, t))))
  }

  function Render(l: Layout, t: string): string {
    Quote(l.name, RenderHead(l.head, RenderList(l.list, t)))
  }

  /** A string between quotes. */
  predicate Raw(s: string) {
    s != [] && '\"' !in s
  }

  function Values(ps: seq<Item>): (vs: seq<string>)
    ensures |vs| == |ps| && forall i :: 0 <= i < |ps| ==> vs[i] == CStr(ps[i].raw)
  {
    seq(|ps|, i requires 0 <= i < |ps| => CStr(ps[i].raw))
  }

  predicate AllRaw(ps: seq<Item>) {
    forall i :: 0 <= i < |ps| ==> Raw(ps[i].raw)
  }

  predicate ProperList(l: List) {
    && AllRaw(l.items) && (l.comma ==> l.items != [])
    && (l.ending.OpenString? ==> l.comma && '\"' !in l.ending.junk)
  }

  /** The layout spells the paragraph. */
  predicate Spells(l: Layout, d: Decl) {
    && Raw(l.name) && CStr(l.name) == d.name
    && Raw(l.head.raw) && StrategyOf(CStr(l.head.raw)) == Some(d.strategy)
    && ProperList(l.list) && Values(l.list.items) == d.props
  }

  /** Only the last paragraph may lack its newline. */
  predicate EndsWell(e: Ending, t: string) {
    e.Newline? || t == []
  }

  /** t is d in the layout l and then u. */
  ghost predicate Laid(d: Decl, l: Layout, t: string, u: string) {
    Spells(l, d) && t == Render(l, u) && EndsWell(l.list.ending, u)
  }

  /** Paragraph i lies between the texts from i and from i + 1 on. */
  ghost predicate Paragraph(ds: seq<Decl>, ls: seq<Layout>, ts: seq<string>, i: nat)
    requires i < |ds| == |ls| && |ts| == |ds| + 1
  {
    Laid(ds[i], ls[i], ts[i], ts[i + 1])
  }

  /** t is a layout of the paragraphs, cut at the places ts. */
  ghost predicate IsText(ds: seq<Decl>, ls: seq<Layout>, ts: seq<string>, t: string) {
    && |ls| == |ds| && |ts| == |ds| + 1 && ts[0] == t && ts[|ds|] == []
    && forall i {:trigger Paragraph(ds, ls, ts, i)} :: 0 <= i < |ds| ==> Paragraph(ds, ls, ts, i)
  }

  // ----- Every layout is accepted -----

  lemma {:induction false} TrimSpaces(n: nat, t: string)
    requires t == [] || t[0] != ' '
    ensures Trim(Spaces(n) + t) == t
  {
    if n == 0 {
      assert Spaces(n) + t == t;
    } else {
      TrimSpaces(n - 1, t);
      assert (Spaces(n) + t)[1..] == Spaces(n - 1) + t;
    }
  }

  lemma ExpectAccepts(n: nat, w: string, t: string)
    requires w != [] && w[0] != ' '
    ensures Expect(Spaces(n) + (w + t), w) == Got((), t)
  {
    TrimSpaces(n, w + t);
    assert (w + t)[|w|..] == t;
  }

  lemma QuoteAccepts(s: string, t: string)
    requires Raw(s)
    ensures Quoted(Quote(s, t)) == Got(CStr(s), t)
  {
    var q := Quote(s, t);
    assert q[1..] == s + (['\"'] + t);
    forall i | 0 <= i < |s| ensures q[1..][i] != '\"' { assert q[1..][i] == s[i] && s[i] in s; }
    QuoteAtUnique(q[1..], |s|);
    assert q[1..|s| + 1] == s && q[|s| + 2..] == t;
  }

  lemma PaddedQuote(n: nat, s: string, t: string)
    requires Raw(s)
    ensures Quoted(Trim(Spaces(n) + Quote(s, t))) == Got(CStr(s), t)
  {
    TrimSpaces(n, Quote(s, t));
    QuoteAccepts(s, t);
  }

  lemma BracketAccepts(h: Head, s: Strategy, t: string)
    ensures ParseBracket(RenderBracket(h, t), s) == Got(s, t)
  {
    var c := Spaces(h.bracket) + ("[" + t);
    var b := Spaces(h.properties) + ("\"properties\":" + c);
    ExpectAccepts(h.bracket, "[", t);
    ExpectAccepts(h.properties, "\"properties\":", c);
    ExpectAccepts(h.dash, "\n - ", b);
  }

  lemma ValueAccepts(h: Head, s: Strategy, t: string)
    requires Raw(h.raw) && StrategyOf(CStr(h.raw)) == Some(s)
    ensures ParseValue(RenderValue(h, t)) == Got(s, t)
  {
    PaddedQuote(h.value, h.raw, RenderBracket(h, t));
    BracketAccepts(h, s, t);
  }

  lemma HeadAccepts(h: Head, s: Strategy, t: string)
    requires Raw(h.raw) && StrategyOf(CStr(h.raw)) == Some(s)
    ensures ParseStrategy(RenderHead(h, t)) == Got(s, t)
  {
    var v := RenderValue(h, t);
    ExpectAccepts(h.colon, ":\n - ", Spaces(h.strategy) + ("\"strategy\":" + v));
    ExpectAccepts(h.strategy, "\"strategy\":", v);
    ValueAccepts(h, s, t);
  }

  /** What the property loop leaves of an ending behind a comma. */
  lemma CommaThenEnd(e: Ending, t: string, acc: seq<string>)
    requires acc != [] && (e.OpenString? ==> '\"' !in e.junk) && EndsWell(e, t)
    ensures ParseProps(RenderEnd(e, t), acc).Got? && ParseProps(RenderEnd(e, t), acc).value == acc
    ensures ParseEnd(ParseProps(RenderEnd(e, t), acc).rest, acc) == Got((), t)
  {
    match e
    case Newline(n) => TrimSpaces(n, ['\n'] + t);
    case TextEnd(n) => TrimSpaces(n, []); assert Spaces(n) + [] == Spaces(n);
    case OpenString(n, junk) =>
      var u := ['\"'] + junk;
      TrimSpaces(n, u);
      assert u[1..] == junk;
      forall i | 0 <= i < |junk| ensures junk[i] != '\"' { assert junk[i] in junk; }
      QuoteAtUnique(junk, |junk|);
  }

  lemma EndAccepts(e: Ending, t: string, props: seq<string>)
    requires props != [] && !e.OpenString? && EndsWell(e, t)
    ensures ParseEnd(RenderEnd(e, t), props) == Got((), t)
  {
    match e
    case Newline(n) => TrimSpaces(n, ['\n'] + t);
    case TextEnd(n) => TrimSpaces(n, []); assert Spaces(n) + [] == Spaces(n);
  }

  /** One property is read and the text after its separator remains. */
  lemma ItemAccepts(p: Item, c: char, u: string, acc: seq<string>)
    requires Raw(p.raw) && (c == ',' || c == ']')
    ensures ParseProps(ItemText(p, c, u), acc)
         == if c == ',' then ParseProps(u, acc + [CStr(p.raw)]) else Got(acc + [CStr(p.raw)], u)
  {
    PaddedQuote(p.before, p.raw, Spaces(p.after) + ([c] + u));
    TrimSpaces(p.after, [c] + u);
    assert ([c] + u)[1..] == u;
  }

  lemma LastItemAccepts(p: Item, comma: bool, t: string, acc: seq<string>, r: Step<seq<string>>)
    requires Raw(p.raw) && r == if comma then ParseProps(t, acc + [CStr(p.raw)]) else Got(acc + [CStr(p.raw)], t)
    ensures ParseProps(ItemText(p, if comma then ',' else ']', t), acc) == r
  {
    ItemAccepts(p, if comma then ',' else ']', t, acc);
  }

  lemma ValuesCons(ps: seq<Item>, acc: seq<string>)
    requires |ps| > 0
    ensures acc + [CStr(ps[0].raw)] + Values(ps[1..]) == acc + Values(ps)
  {}

  lemma {:induction false} ItemsAccept(
    ps: seq<Item>, comma: bool, t: string, acc: seq<string>, r: Step<seq<string>>)
    requires |ps| > 0 && AllRaw(ps)
    requires r == if comma then ParseProps(t, acc + Values(ps)) else Got(acc + Values(ps), t)
    ensures ParseProps(RenderItems(ps, comma, t), acc) == r
    decreases |ps|
  {
    ValuesCons(ps, acc);
    if |ps| == 1 {
      assert acc + [CStr(ps[0].raw)] + Values(ps[1..]) == acc + [CStr(ps[0].raw)];
      LastItemAccepts(ps[0], comma, t, acc, r);
    } else {
      ItemsAccept(ps[1..], comma, t, acc + [CStr(ps[0].raw)], r);
      ItemAccepts(ps[0], ',', RenderItems(ps[1..], comma, t), acc);
    }
  }

  lemma EmptyAccepts(n: nat, e: Ending, t: string)
    requires !e.OpenString? && EndsWell(e, t)
    ensures ParseList(Spaces(n) + ([']'] + RenderEnd(e, t))) == Got([], t)
  {
    var u := [']'] + RenderEnd(e, t);
    TrimSpaces(n, u);
    TrimSpaces(0, u);
    assert Spaces(0) + u == u;
    assert "]" + RenderEnd(e, t) == u && u[1..] == RenderEnd(e, t);
    EndAccepts(e, t, [""]);
  }

  lemma CommaAccepts(ps: seq<Item>, e: Ending, vs: seq<string>, t: string)
    requires ps != [] && AllRaw(ps) && vs == Values(ps) && (e.OpenString? ==> '\"' !in e.junk) && EndsWell(e, t)
    ensures ParseList(RenderItems(ps, true, RenderEnd(e, t))) == Got(vs, t)
  {
    assert [] + vs == vs;
    ItemsAccept(ps, true, RenderEnd(e, t), [], ParseProps(RenderEnd(e, t), vs));
    CommaThenEnd(e, t, vs);
  }

  lemma ClosedAccepts(ps: seq<Item>, e: Ending, vs: seq<string>, t: string)
    requires ps != [] && AllRaw(ps) && vs == Values(ps) && !e.OpenString? && EndsWell(e, t)
    ensures ParseList(RenderItems(ps, false, RenderEnd(e, t))) == Got(vs, t)
  {
    assert [] + vs == vs;
    ItemsAccept(ps, false, RenderEnd(e, t), [], Got(vs, RenderEnd(e, t)));
    EndAccepts(e, t, vs);
  }

  lemma ListAccepts(l: List, t: string)
    requires ProperList(l) && EndsWell(l.ending, t)
    ensures ParseList(RenderList(l, t)) == Got(Values(l.items), t)
  {
    if l.items == [] {
      EmptyAccepts(l.empty, l.ending, t);
    } else {
      var vs := Values(l.items);
      if l.comma { CommaAccepts(l.items, l.ending, vs, t); } else { ClosedAccepts(l.items, l.ending, vs, t); }
    }
  }

  lemma DeclAccepts(d: Decl, l: Layout, t: string)
    requires Spells(l, d) && EndsWell(l.list.ending, t)
    ensures ParseDecl(Render(l, t)) == Got(d, t)
  {
    var u := RenderList(l.list, t);
    QuoteAccepts(l.name, RenderHead(l.head, u));
    HeadAccepts(l.head, d.strategy, u);
    ListAccepts(l.list, t);
  }

  lemma ParagraphAccepts(ds: seq<Decl>, ls: seq<Layout>, ts: seq<string>, t: string, i: nat)
    requires IsText(ds, ls, ts, t) && i < |ds|
    ensures ParseDecl(ts[i]) == Got(ds[i], ts[i + 1])
  {
    assert Paragraph(ds, ls, ts, i);
    DeclAccepts(ds[i], ls[i], ts[i + 1]);
  }

  lemma {:induction false} RepeatedAccepts(parse: string -> Step<Decl>, ds: seq<Decl>, ts: seq<string>, i: nat)
    requires i <= |ds| && |ts| == |ds| + 1 && ts[|ds|] == []
    requires forall k :: 0 <= k < |ds| ==> parse(ts[k]) == Got(ds[k], ts[k + 1]) && |ts[k + 1]| < |ts[k]|
    ensures Repeated(parse, ts[i]) == Outcome(true, ds[i..])
    decreases |ds| - i
  {
    if i < |ds| {
      RepeatedAccepts(parse, ds, ts, i + 1);
      assert ds[i..] == [ds[i]] + ds[i + 1..];
    }
  }

  lemma TextAccepts(ds: seq<Decl>, ls: seq<Layout>, ts: seq<string>, t: string)
    requires IsText(ds, ls, ts, t)
    ensures ParseAll(t) == Outcome(true, ds)
  {
    forall k | 0 <= k < |ds| ensures ParseDecl(ts[k]) == Got(ds[k], ts[k + 1]) && |ts[k + 1]| < |ts[k]| {
      ParagraphAccepts(ds, ls, ts, t, k);
    }
    RepeatedAccepts(ParseDecl, ds, ts, 0);
    assert ds[0..] == ds;
  }

  // ----- Nothing else is accepted -----

  lemma {:induction false} TrimIs(t: string) returns (n: nat)
    ensures t == Spaces(n) + Trim(t)
  {
    if t != [] && t[0] == ' ' {
      var m := TrimIs(t[1..]);
      n := m + 1;
      assert t == [' '] + t[1..];
    } else {
      n := 0;
    }
  }

  lemma ExpectIs(t: string, w: string) returns (n: nat)
    requires Expect(t, w).Got?
    ensures t == Spaces(n) + (w + Expect(t, w).rest)
  {
    n := TrimIs(t);
    assert Trim(t) == w + Expect(t, w).rest;
  }

  lemma {:induction false} QuoteAtBefore(t: string, i: nat)
    requires i < QuoteAt(t)
    ensures t[i] != '\"'
  {
    if i > 0 { QuoteAtBefore(t[1..], i - 1); }
  }

  lemma {:induction false} QuoteAtHere(t: string)
    requires QuoteAt(t) < |t|
    ensures t[QuoteAt(t)] == '\"'
  {
    if t[0] != '\"' { QuoteAtHere(t[1..]); }
  }

  lemma NoQuoteBefore(t: string)
    ensures '\"' !in t[..QuoteAt(t)]
  {
    forall i | 0 <= i < QuoteAt(t) ensures t[..QuoteAt(t)][i] != '\"' { QuoteAtBefore(t, i); }
  }

  lemma QuoteSplits(t: string, k: nat)
    requires 1 < k + 1 < |t| && t[0] == '\"' && t[k + 1] == '\"'
    ensures t == Quote(t[1..k + 1], t[k + 2..])
  {}

  lemma QuotedIsQuote(t: string) returns (raw: string)
    requires Quoted(t).Got?
    ensures Raw(raw) && CStr(raw) == Quoted(t).value && t == Quote(raw, Quoted(t).rest)
  {
    var k := QuoteAt(t[1..]);
    raw := t[1..k + 1];
    QuoteAtHere(t[1..]);
    QuoteSplits(t, k);
    NoQuoteBefore(t[1..]);
    assert t[1..][..k] == raw;
  }

  lemma PaddedQuoteIs(t: string) returns (n: nat, raw: string)
    requires Quoted(Trim(t)).Got?
    ensures var q := Quoted(Trim(t)); Raw(raw) && CStr(raw) == q.value && t == Spaces(n) + Quote(raw, q.rest)
  {
    n := TrimIs(t);
    raw := QuotedIsQuote(Trim(t));
  }

  lemma BracketIs(t: string, s: Strategy) returns (dash: nat, properties: nat, bracket: nat)
    requires ParseBracket(t, s).Got?
    ensures t == Spaces(dash) + ("\n - " + (Spaces(properties) + ("\"properties\":" + (
                   Spaces(bracket) + ("[" + ParseBracket(t, s).rest)))))
  {
    dash := ExpectIs(t, "\n - ");
    var d := Expect(t, "\n - ").rest;
    properties := ExpectIs(d, "\"properties\":");
    bracket := ExpectIs(Expect(d, "\"properties\":").rest, "[");
  }

  lemma ValueIs(t: string) returns (h: Head)
    requires ParseValue(t).Got?
    ensures Raw(h.raw) && StrategyOf(CStr(h.raw)) == Some(ParseValue(t).value)
    ensures t == RenderValue(h, ParseValue(t).rest)
  {
    var value, raw := PaddedQuoteIs(t);
    var c := Quoted(Trim(t));
    var dash, properties, bracket := BracketIs(c.rest, StrategyOf(c.value).value);
    h := Head(0, 0, value, raw, dash, properties, bracket);
  }

  lemma HeadIs(t: string) returns (h: Head)
    requires ParseStrategy(t).Got?
    ensures Raw(h.raw) && StrategyOf(CStr(h.raw)) == Some(ParseStrategy(t).value)
    ensures t == RenderHead(h, ParseStrategy(t).rest)
  {
    var colon := ExpectIs(t, ":\n - ");
    var a := Expect(t, ":\n - ").rest;
    var strategy := ExpectIs(a, "\"strategy\":");
    var v := ValueIs(Expect(a, "\"strategy\":").rest);
    h := v.(colon := colon, strategy := strategy);
    SameValue(v, h, ParseStrategy(t).rest);
  }

  lemma SameValue(a: Head, b: Head, t: string)
    requires b == a.(colon := b.colon, strategy := b.strategy)
    ensures RenderValue(a, t) == RenderValue(b, t)
  {}

  /** The list as far as the property loop saw it: u is what follows the last
      separator, and after a comma u starts with no further property. */
  ghost predicate Seen(
    t: string, r: Step<seq<string>>, acc: seq<string>, ps: seq<Item>, comma: bool, u: string)
  {
    && r.Got? && r.value == acc + Values(ps) && AllRaw(ps)
    && (if ps == [] then comma && u == t else t == RenderItems(ps, comma, u))
    && (if comma then Quoted(Trim(u)).Fail? && r.rest == AfterNoQuoted(Trim(u)) else r.rest == u)
  }

  lemma SeenNone(t: string, acc: seq<string>)
    requires Quoted(Trim(t)).Fail?
    ensures Seen(t, ParseProps(t, acc), acc, [], true, t)
  {
    assert acc + Values([]) == acc;
  }

  lemma SeenMore(
    t: string, r: Step<seq<string>>, acc: seq<string>, p: Item, v: string, ps: seq<Item>, comma: bool, u: string)
    requires t == ItemText(p, ',', v) && Raw(p.raw) && Seen(v, r, acc + [CStr(p.raw)], ps, comma, u)
    ensures Seen(t, r, acc, [p] + ps, comma, u)
  {
    assert ([p] + ps)[1..] == ps;
    ValuesCons([p] + ps, acc);
  }

  lemma SeenLast(t: string, acc: seq<string>, p: Item, u: string)
    requires t == ItemText(p, ']', u) && Raw(p.raw)
    ensures Seen(t, Got(acc + [CStr(p.raw)], u), acc, [p], false, u)
  {
    assert Values([p]) == [CStr(p.raw)];
  }

  /** What the loop does when a property is there. */
  lemma PropsUnfold(t: string, acc: seq<string>)
    requires ParseProps(t, acc).Got? && Quoted(Trim(t)).Got?
    ensures var q := Quoted(Trim(t)); var v := Trim(q.rest);
            && v != [] && (v[0] == ',' || v[0] == ']') && |v[1..]| < |t|
            && (v[0] == ',' ==> ParseProps(t, acc) == ParseProps(v[1..], acc + [q.value]))
            && (v[0] == ']' ==> ParseProps(t, acc) == Got(acc + [q.value], v[1..]))
  {}

  lemma OneItemIs(t: string) returns (p: Item)
    requires Quoted(Trim(t)).Got? && Trim(Quoted(Trim(t)).rest) != []
    ensures var q := Quoted(Trim(t)); var v := Trim(q.rest);
            Raw(p.raw) && CStr(p.raw) == q.value && t == ItemText(p, v[0], v[1..])
  {
    var q := Quoted(Trim(t));
    var before, raw := PaddedQuoteIs(t);
    var after := TrimIs(q.rest);
    var v := Trim(q.rest);
    assert v == [v[0]] + v[1..];
    p := Item(before, raw, after);
  }

  lemma {:induction false} ItemsAre(t: string, acc: seq<string>, r: Step<seq<string>>)
    returns (ps: seq<Item>, comma: bool, u: string)
    requires r == ParseProps(t, acc) && r.Got?
    ensures Seen(t, r, acc, ps, comma, u)
    decreases |t|
  {
    if Quoted(Trim(t)).Fail? {
      SeenNone(t, acc);
      return [], true, t;
    }
    var p, v := FirstItem(t, acc);
    if v[0] == ',' {
      ps, comma, u := ItemsAre(v[1..], acc + [CStr(p.raw)], r);
      SeenMore(t, r, acc, p, v[1..], ps, comma, u);
      ps := [p] + ps;
    } else {
      SeenLast(t, acc, p, v[1..]);
      ps, comma, u := [p], false, v[1..];
    }
  }

  lemma FirstItem(t: string, acc: seq<string>) returns (p: Item, v: string)
    requires ParseProps(t, acc).Got? && Quoted(Trim(t)).Got?
    ensures v != [] && (v[0] == ',' || v[0] == ']') && |v[1..]| < |t|
    ensures Raw(p.raw) && t == ItemText(p, v[0], v[1..])
    ensures v[0] == ',' ==> ParseProps(t, acc) == ParseProps(v[1..], acc + [CStr(p.raw)])
    ensures v[0] == ']' ==> ParseProps(t, acc) == Got(acc + [CStr(p.raw)], v[1..])
  {
    PropsUnfold(t, acc);
    p := OneItemIs(t);
    v := Trim(Quoted(Trim(t)).rest);
  }

  lemma EndIs(t: string, props: seq<string>) returns (e: Ending)
    requires props != [] && ParseEnd(t, props).Got?
    ensures !e.OpenString? && t == RenderEnd(e, ParseEnd(t, props).rest) && EndsWell(e, ParseEnd(t, props).rest)
  {
    var n := TrimIs(t);
    var u := Trim(t);
    if u == [] {
      assert Spaces(n) + u == Spaces(n);
      e := TextEnd(n);
    } else {
      assert u == ['\n'] + u[1..];
      e := Newline(n);
    }
  }

  lemma OpenStringIs(t: string) returns (e: Ending)
    requires Trim(t) != [] && Trim(t)[0] == '\"' && QuoteAt(Trim(t)[1..]) == |Trim(t)| - 1
    ensures e.OpenString? && '\"' !in e.junk && t == RenderEnd(e, [])
  {
    var n := TrimIs(t);
    var junk := Trim(t)[1..];
    NoQuoteBefore(junk);
    assert junk[..|junk|] == junk;
    assert Trim(t) == ['\"'] + junk;
    e := OpenString(n, junk);
  }

  lemma TrimTwice(t: string)
    ensures Trim(Trim(t)) == Trim(t)
  {}

  lemma CommaEndIs(t: string, props: seq<string>) returns (e: Ending)
    requires props != [] && Quoted(Trim(t)).Fail? && ParseEnd(AfterNoQuoted(Trim(t)), props).Got?
    ensures var r := ParseEnd(AfterNoQuoted(Trim(t)), props);
            t == RenderEnd(e, r.rest) && EndsWell(e, r.rest) && (e.OpenString? ==> '\"' !in e.junk)
  {
    var u := Trim(t);
    if u != [] && u[0] == '\"' {
      e := OpenStringIs(t);
    } else {
      TrimTwice(t);
      assert ParseEnd(t, props) == ParseEnd(u, props);
      e := EndIs(t, props);
    }
  }

  lemma EmptyIs(t: string) returns (n: nat, e: Ending)
    requires Quoted(Trim(t)).Fail? && ParseEnd(AfterNoQuoted(Trim(t)), []).Got?
    ensures var r := ParseEnd(AfterNoQuoted(Trim(t)), []);
            t == Spaces(n) + ([']'] + RenderEnd(e, r.rest)) && EndsWell(e, r.rest) && !e.OpenString?
  {
    var u := Trim(t);
    TrimTwice(t);
    assert AfterNoQuoted(u) == u;
    n := TrimIs(t);
    var y := u[1..];
    assert u == [']'] + y;
    assert ParseEnd(u, []) == ParseEnd(y, [""]);
    e := EndIs(y, [""]);
  }

  lemma ListIs(t: string) returns (l: List)
    requires ParseList(t).Got?
    ensures ProperList(l) && Values(l.items) == ParseList(t).value
    ensures t == RenderList(l, ParseList(t).rest) && EndsWell(l.ending, ParseList(t).rest)
  {
    var r := ParseProps(t, []);
    var ps, comma, u := ItemsAre(t, [], r);
    assert [] + Values(ps) == Values(ps);
    if ps == [] {
      var empty, e := EmptyIs(t);
      l := List([], false, empty, e);
    } else if comma {
      var e := CommaEndIs(u, Values(ps));
      l := List(ps, true, 0, e);
    } else {
      var e := EndIs(u, Values(ps));
      l := List(ps, false, 0, e);
    }
  }

  lemma DeclIs(t: string) returns (l: Layout)
    requires ParseDecl(t).Got?
    ensures Laid(ParseDecl(t).value, l, t, ParseDecl(t).rest)
  {
    var name := QuotedIsQuote(t);
    var n := Quoted(t);
    var head := HeadIs(n.rest);
    var list := ListIs(ParseStrategy(n.rest).rest);
    l := Layout(name, head, list);
  }

  lemma {:induction false} TextIs(t: string) returns (ls: seq<Layout>, ts: seq<string>)
    requires ParseAll(t).ok
    ensures IsText(ParseAll(t).decls, ls, ts, t)
    decreases |t|
  {
    if t == [] {
      ls, ts := [], [[]];
    } else {
      var d := ParseDecl(t);
      if d.Fail? {
        ParseAllFails(t);
      } else {
        ParseAllCons(t, d.value, d.rest);
      }
      var l := DeclIs(t);
      ls, ts := TextIs(d.rest);
      TextCons(d.value, l, ParseAll(d.rest).decls, ls, ts, t, d.rest);
      ls, ts := [l] + ls, [t] + ts;
    }
  }

  lemma TextCons(d: Decl, l: Layout, ds: seq<Decl>, ls: seq<Layout>, ts: seq<string>, t: string, u: string)
    requires Laid(d, l, t, u) && IsText(ds, ls, ts, u)
    ensures IsText([d] + ds, [l] + ls, [t] + ts, t)
  {
    forall i | 0 <= i < |ds| + 1 ensures Paragraph([d] + ds, [l] + ls, [t] + ts, i) {
      if i > 0 {
        assert Paragraph(ds, ls, ts, i - 1);
        ParagraphShifts(d, l, t, ds, ls, ts, i - 1);
      }
    }
  }

  lemma ParagraphShifts(d: Decl, l: Layout, t: string, ds: seq<Decl>, ls: seq<Layout>, ts: seq<string>, i: nat)
    requires i < |ds| == |ls| && |ts| == |ds| + 1 && Paragraph(ds, ls, ts, i)
    ensures Paragraph([d] + ds, [l] + ls, [t] + ts, i + 1)
  {
    var ds', ls', ts' := [d] + ds, [l] + ls, [t] + ts;
    assert ds'[i + 1] == ds[i] && ls'[i + 1] == ls[i] && ts'[i + 1] == ts[i] && ts'[i + 2] == ts[i + 1];
  }

  // ----- Theorems -----

  ghost predicate SomeLayout(ds: seq<Decl>, t: string) {
    exists ls, ts :: IsText(ds, ls, ts, t)
  }

  /** For every text: parsing succeeds with the paragraphs ds exactly when the text is a
      layout of ds. */
  lemma AcceptsExactly(t: string, ds: seq<Decl>)
    ensures ParseAll(t) == Outcome(true, ds) <==> SomeLayout(ds, t)
  {
    if ParseAll(t) == Outcome(true, ds) {
      var ls, ts := TextIs(t);
      assert IsText(ds, ls, ts, t);
    }
    if SomeLayout(ds, t) {
      var ls, ts :| IsText(ds, ls, ts, t);
      TextAccepts(ds, ls, ts, t);
    }
  }

  // ----- The format's own layout -----

  /** A string that is its own spelling. */
  predicate Clean(s: string) {
    Raw(s) && '\0' !in s
  }

  ghost predicate CleanDecl(d: Decl) {
    Clean(d.name) && forall i :: 0 <= i < |d.props| ==> Clean(d.props[i])
  }

  lemma {:induction false} CStrClean(s: string)
    requires '\0' !in s
    ensures CStr(s) == s
  {
    if s != [] {
      assert s[0] in s;
      forall c | c in s[1..] ensures c in s {}
      CStrClean(s[1..]);
    }
  }

  function Name(s: Strategy): string {
    if s.Merge? then "merge" else "replace"
  }

  function PlainItems(ps: seq<string>): (r: seq<Item>)
    ensures |r| == |ps| && forall i :: 0 <= i < |ps| ==> r[i].raw == ps[i]
  {
    seq(|ps|, i requires 0 <= i < |ps| => Item(if i == 0 then 0 else 1, ps[i], 0))
  }

  /** A paragraph as the format's own description lays it out. */
  function PlainLayout(d: Decl): Layout {
    Layout(d.name, Head(0, 0, 1, Name(d.strategy), 0, 0, 1), List(PlainItems(d.props), false, 0, Newline(0)))
  }

  function Canonical(ds: seq<Decl>): string {
    if ds == [] then [] else Render(PlainLayout(ds[0]), Canonical(ds[1..]))
  }

  lemma NameSpells(s: Strategy)
    ensures Raw(Name(s)) && StrategyOf(CStr(Name(s))) == Some(s)
  {
    CStrClean(Name(s));
  }

  lemma PlainSpells(d: Decl)
    requires CleanDecl(d)
    ensures Spells(PlainLayout(d), d)
  {
    NameSpells(d.strategy);
    CStrClean(d.name);
    forall i | 0 <= i < |d.props| ensures CStr(d.props[i]) == d.props[i] && Raw(d.props[i]) {
      assert Clean(d.props[i]);
      CStrClean(d.props[i]);
    }
    assert Values(PlainItems(d.props)) == d.props;
  }

  lemma {:induction false} CanonicalIsText(ds: seq<Decl>) returns (ls: seq<Layout>, ts: seq<string>)
    requires forall i :: 0 <= i < |ds| ==> CleanDecl(ds[i])
    ensures IsText(ds, ls, ts, Canonical(ds))
  {
    if ds == [] {
      ls, ts := [], [[]];
    } else {
      ls, ts := CanonicalIsText(ds[1..]);
      PlainSpells(ds[0]);
      TextCons(ds[0], PlainLayout(ds[0]), ds[1..], ls, ts, Canonical(ds), Canonical(ds[1..]));
      ls, ts := [PlainLayout(ds[0])] + ls, [Canonical(ds)] + ts;
      assert [ds[0]] + ds[1..] == ds;
    }
  }

  /** Parsing the canonical text of any paragraphs of non-empty strings without quotes
      gives the paragraphs back, and leaves one entry per controller that holds what
      merging and replacing in order gives. */
  lemma CanonicalRoundTrip(ds: seq<Decl>, es: seq<Entry>)
    requires (forall i :: 0 <= i < |ds| ==> CleanDecl(ds[i])) && Distinct(es)
    ensures ParseAll(Canonical(ds)) == Outcome(true, ds)
    ensures Distinct(HandleAll(es, ds)) && AsMap(HandleAll(es, ds)) == Fold(AsMap(es), ds)
  {
    var ls, ts := CanonicalIsText(ds);
    TextAccepts(ds, ls, ts, Canonical(ds));
    RegistryIsFold(es, ds);
  }

  /** A paragraph whose list a comma leaves open. */
  function OpenLayout(d: Decl): (l: Layout)
    ensures l.list.comma && Values(l.list.items) == Values(PlainItems(d.props))
  {
    var l := PlainLayout(d);
    l.(list := l.list.(comma := true))
  }

  /** Among the accepted texts are lists that a comma leaves open. */
  lemma OpenListAccepted(d: Decl)
    requires CleanDecl(d) && d.props != []
    ensures ParseAll(Render(OpenLayout(d), [])) == Outcome(true, [d])
  {
    PlainSpells(d);
    DeclAccepts(d, OpenLayout(d), []);
    ParseAllCons(Render(OpenLayout(d), []), d, []);
    assert [d] + [] == [d];
  }

  // ----- The two words -----

  /** A layout of one paragraph whose strategy is spelled w. */
  predicate Worded(l: Layout, w: string) {
    Raw(l.name) && l.head.raw == w && ProperList(l.list)
  }

  lemma WordedParses(l: Layout, s: Strategy)
    requires Worded(l, Name(s)) && EndsWell(l.list.ending, [])
    ensures ParseAll(Render(l, [])) == Outcome(true, [Decl(CStr(l.name), s, Values(l.list.items))])
  {
    var d := Decl(CStr(l.name), s, Values(l.list.items));
    NameSpells(s);
    DeclAccepts(d, l, []);
    ParseAllCons(Render(l, []), d, []);
    assert [d] + [] == [d];
  }

  /** What the registry holds for a controller after a text. */
  function After(es: seq<Entry>, t: string): map<string, seq<string>> {
    AsMap(HandleAll(es, ParseAll(t).decls))
  }

  lemma OneParagraph(es: seq<Entry>, d: Decl)
    requires Distinct(es)
    ensures AsMap(HandleAll(es, [d])) == Effect(AsMap(es), d)
  {
    HandleIsEffect(es, d);
    assert HandleAll(Handle(es, d), []) == Handle(es, d);
    assert [d][1..] == [];
  }

  /** In every layout the word merge appends to what the controller had. */
  lemma MergeAppends(l: Layout, es: seq<Entry>)
    requires Worded(l, "merge") && EndsWell(l.list.ending, []) && Distinct(es)
    ensures var n := CStr(l.name); var had := AsMap(es);
      && n in After(es, Render(l, []))
      && After(es, Render(l, []))[n] == (if n in had then had[n] else []) + Values(l.list.items)
  {
    WordedParses(l, Merge);
    OneParagraph(es, Decl(CStr(l.name), Merge, Values(l.list.items)));
    assert [] + Values(l.list.items) == Values(l.list.items);
  }

  /** In every layout the word replace drops what the controller had. */
  lemma ReplaceDrops(l: Layout, es: seq<Entry>)
    requires Worded(l, "replace") && EndsWell(l.list.ending, []) && Distinct(es)
    ensures var n := CStr(l.name);
      n in After(es, Render(l, [])) && After(es, Render(l, []))[n] == Values(l.list.items)
  {
    WordedParses(l, Replace);
    OneParagraph(es, Decl(CStr(l.name), Replace, Values(l.list.items)));
  }

  /** Any other word is refused. */
  lemma OtherWordRefused(l: Layout)
    requires Raw(l.name) && Raw(l.head.raw) && CStr(l.head.raw) != "merge" && CStr(l.head.raw) != "replace"
    ensures ParseAll(Render(l, [])) == Outcome(false, [])
  {
    var u := RenderList(l.list, []);
    QuoteAccepts(l.name, RenderHead(l.head, u));
    WordRefused(l.head, u);
    ParseAllFails(Render(l, []));
  }

  lemma WordRefused(h: Head, t: string)
    requires Raw(h.raw) && CStr(h.raw) != "merge" && CStr(h.raw) != "replace"
    ensures ParseStrategy(RenderHead(h, t)) == Fail
  {
    var v := RenderValue(h, t);
    ExpectAccepts(h.colon, ":\n - ", Spaces(h.strategy) + ("\"strategy\":" + v));
    ExpectAccepts(h.strategy, "\"strategy\":", v);
    PaddedQuote(h.value, h.raw, RenderBracket(h, t));
  }
}
