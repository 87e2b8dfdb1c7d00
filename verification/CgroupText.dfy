/** The cursor parser of `cgroup-props.c` for a small YAML-like text. */
module CgroupText {
  import opened Options

  datatype Strategy = Merge | Replace

  /** One paragraph of the text. */
  datatype Decl = Decl(name: string, strategy: Strategy, props: seq<string>)

  // ----- What the text means -----

  /** A parse step on the text ahead: refused, or a value and the text left. */
  datatype Step<T> = Fail | Got(value: T, rest: string)

  function Trim(t: string): (r: string)
    ensures |r| <= |t| && (r == [] || r[0] != ' ')
  {
    if t != [] && t[0] == ' ' then Trim(t[1..]) else t
  }

  /** A C string ends at its first NUL. */
  function CStr(s: string): string {
    if s == [] || s[0] == '\0' then [] else [s[0]] + CStr(s[1..])
  }

  function QuoteAt(t: string): (k: nat)
    ensures k <= |t|
  {
    if t == [] || t[0] == '\"' then 0 else 1 + QuoteAt(t[1..])
  }

  lemma {:induction false} QuoteAtUnique(t: string, k: nat)
    requires k <= |t| && (forall i :: 0 <= i < k ==> t[i] != '\"') && (k < |t| ==> t[k] == '\"')
    ensures QuoteAt(t) == k
  {
    if t != [] && t[0] != '\"' {
      QuoteAtUnique(t[1..], k - 1);
    }
  }

  /** A non-empty quoted string at the front of t. */
  function Quoted(t: string): (r: Step<string>)
    ensures r.Got? ==> |r.rest| < |t|
  {
    if t == [] || t[0] != '\"' then Fail
    else
      var k := QuoteAt(t[1..]);
      if k == 0 || k == |t| - 1 then Fail else Got(CStr(t[1..k + 1]), t[k + 2..])
  }

  /** After a refused string: an opening quote that led nowhere has shortened the
      text from its far end. */
  function AfterNoQuoted(t: string): string {
    if t == [] || t[0] != '\"' then t
    else if QuoteAt(t[1..]) == |t| - 1 then []
    else t[..|t| - 1]
  }

  /** w, after any spaces. */
  function Expect(t: string, w: string): (r: Step<()>)
    ensures r.Got? ==> |r.rest| <= |t|
  {
    if w <= Trim(t) then Got((), Trim(t)[|w|..]) else Fail
  }

  function StrategyOf(s: string): Option<Strategy> {
    if s == "merge" then Some(Merge) else if s == "replace" then Some(Replace) else None
  }

  /** From the controller's name up to the opening bracket. */
  function ParseStrategy(t: string): (r: Step<Strategy>)
    ensures r.Got? ==> |r.rest| <= |t|
  {
    var a := Expect(t, ":\n - ");
    if a.Fail? then Fail else
    var b := Expect(a.rest, "\"strategy\":");
    if b.Fail? then Fail else ParseValue(b.rest)
  }

  /** The strategy's value and on to the opening bracket. */
  function ParseValue(t: string): (r: Step<Strategy>)
    ensures r.Got? ==> |r.rest| <= |t|
  {
    var c := Quoted(Trim(t));
    if c.Fail? then Fail else
    var s := StrategyOf(c.value);
    if s.None? then Fail else ParseBracket(c.rest, s.value)
  }

  function ParseBracket(t: string, s: Strategy): (r: Step<Strategy>)
    ensures r.Got? ==> |r.rest| <= |t|
  {
    var d := Expect(t, "\n - ");
    if d.Fail? then Fail else
    var e := Expect(d.rest, "\"properties\":");
    if e.Fail? then Fail else
    var f := Expect(e.rest, "[");
    if f.Fail? then Fail else Got(s, f.rest)
  }

  function Separator(u: string): (r: Option<bool>)
    ensures r.Some? ==> u != []
  {
    if u == [] then None else if u[0] == ',' then Some(true) else if u[0] == ']' then Some(false) else None
  }

  /** The properties after those in `acc`. */
  function ParseProps(t: string, acc: seq<string>): (r: Step<seq<string>>)
    ensures r.Got? ==> |r.rest| <= |t|
    decreases |t|
  {
    var q := Quoted(Trim(t));
    if q.Fail? then Got(acc, AfterNoQuoted(Trim(t)))
    else
      var u := Trim(q.rest);
      match Separator(u)
      case None => Fail
      case Some(more) => if more then ParseProps(u[1..], acc + [q.value]) else Got(acc + [q.value], u[1..])
  }

  /** The bracket of an empty list, and the end of the line. */
  function ParseEnd(t: string, props: seq<string>): (r: Step<()>)
    ensures r.Got? ==> |r.rest| <= |t|
  {
    var a := if props == [] then Expect(t, "]") else Got((), t);
    if a.Fail? then Fail else
    var u := Trim(a.rest);
    if u == [] then Got((), []) else if u[0] == '\n' then Got((), u[1..]) else Fail
  }

  /** From after the opening bracket to the end of the paragraph. */
  function ParseList(t: string): (r: Step<seq<string>>)
    ensures r.Got? ==> |r.rest| <= |t|
  {
    var p := ParseProps(t, []);
    if p.Fail? then Fail else
    var e := ParseEnd(p.rest, p.value);
    if e.Fail? then Fail else Got(p.value, e.rest)
  }

  function ParseDecl(t: string): (r: Step<Decl>)
    ensures r.Got? ==> |r.rest| < |t|
  {
    var n := Quoted(t);
    if n.Fail? then Fail else
    var s := ParseStrategy(n.rest);
    if s.Fail? then Fail else
    var p := ParseList(s.rest);
    if p.Fail? then Fail else Got(Decl(n.value, s.value, p.value), p.rest)
  }

  datatype Outcome = Outcome(ok: bool, decls: seq<Decl>)

  /** What a parser of single paragraphs makes of a whole text: all paragraphs up to
      the end or the first that it refuses. */
  function Repeated(parse: string -> Step<Decl>, t: string): Outcome
    decreases |t|
  {
    if t == [] then Outcome(true, [])
    else
      var d := parse(t);
      if d.Fail? || |d.rest| >= |t| then Outcome(false, [])
      else
        var more := Repeated(parse, d.rest);
        Outcome(more.ok, [d.value] + more.decls)
  }

  function ParseAll(t: string): Outcome {
    Repeated(ParseDecl, t)
  }

  lemma ParseAllCons(t: string, d: Decl, u: string)
    requires ParseDecl(t) == Got(d, u)
    ensures t != [] && ParseAll(t) == Outcome(ParseAll(u).ok, [d] + ParseAll(u).decls)
  {}

  lemma ParseAllFails(t: string)
    requires t != [] && ParseDecl(t) == Fail
    ensures ParseAll(t) == Outcome(false, [])
  {}

  // ----- The code -----

  lemma QuotedIs(text: string, at: nat, p: nat)
    requires at < p <= |text| && text[at] == '\"' && (p < |text| ==> text[p] == '\"')
    requires forall i :: at < i < p ==> text[i] != '\"'
    ensures p == |text| ==> Quoted(text[at..]) == Fail && AfterNoQuoted(text[at..]) == []
    ensures p < |text| && p == at + 1 ==>
              Quoted(text[at..]) == Fail && AfterNoQuoted(text[at..]) == text[at..|text| - 1]
    ensures p < |text| && p > at + 1 ==> Quoted(text[at..]) == Got(CStr(text[at + 1..p]), text[p + 1..])
  {
    var t := text[at..];
    QuoteAtUnique(t[1..], p - at - 1);
    assert t[1..p - at] == text[at + 1..p];
    if p < |text| {
      assert t[p - at + 1..] == text[p + 1..];
    }
  }

  /** The first n symbols stand in the text from p on and before end. */
  ghost predicate Matches(text: string, p: nat, end: nat, syms: string, n: nat) {
    n <= |syms| && p + n <= end <= |text| && forall k :: 0 <= k < n ==> text[p + k] == syms[k]
  }

  lemma PrefixAt(text: string, p: nat, end: nat, syms: string)
    requires p <= end <= |text|
    ensures Matches(text, p, end, syms, |syms|) <==> syms <= text[p..end]
  {
    var t := text[p..end];
    if syms <= t {
      forall k | 0 <= k < |syms| ensures text[p + k] == syms[k] { assert t[k] == text[p + k]; }
    }
    if Matches(text, p, end, syms, |syms|) {
      forall k | 0 <= k < |syms| ensures t[k] == syms[k] { assert t[k] == text[p + k]; }
    }
  }

  class Cursor {
    const text: string
    var pos: nat
    var len: nat

    ghost predicate Valid()
      reads this
    {
      pos + len <= |text|
    }

    ghost function Rest(): string
      requires Valid()
      reads this
    {
      text[pos..pos + len]
    }

    /** Nothing was cut off. */
    ghost predicate Intact()
      reads this
    {
      pos + len == |text|
    }

    constructor (t: string)
      ensures Valid() && Intact() && Rest() == t
    {
      text, pos, len := t, 0, |t|;
    }

    /** The byte under the cursor; the text is followed by a NUL. */
    function Peek(): char
      reads this
    {
      if pos < |text| then text[pos] else '\0'
    }

    method SkipSpaces() returns (found: bool)
      requires Valid()
      modifies this`pos, this`len
      ensures Valid() && pos + len == old(pos + len)
      ensures found == (old(len) > 0) && Rest() == Trim(old(Rest()))
    {
      if len == 0 {
        return false;
      }
      ghost var want := Trim(Rest());
      while len > 0 && Peek() == ' '
        invariant Valid() && pos + len == old(pos + len) && Trim(Rest()) == want
        decreases len
      {
        assert Rest()[1..] == text[pos + 1..pos + len];
        pos, len := pos + 1, len - 1;
      }
      found := true;
    }

    /** `eat_symbol` without the spaces. */
    method EatHere(sym: char) returns (ok: bool)
      requires Valid()
      modifies this`pos, this`len
      ensures Valid() && ok == (old(len) > 0 && text[old(pos)] == sym)
      ensures pos == (if ok then old(pos) + 1 else old(pos)) && len == if ok then old(len) - 1 else old(len)
    {
      if Peek() != sym || len == 0 {
        return false;
      }
      pos, len := pos + 1, len - 1;
      ok := true;
    }

    method EatSymbol(sym: char, skip: bool) returns (ok: bool)
      requires Valid()
      modifies this`pos, this`len
      ensures Valid() && pos + len == old(pos + len)
      ensures var t := if skip then Trim(old(Rest())) else old(Rest());
              && ok == (t != [] && t[0] == sym)
              && Rest() == if ok then t[1..] else t
    {
      if skip {
        var found := SkipSpaces();
        if !found {
          return false;
        }
      }
      ghost var t := Rest();
      ok := EatHere(sym);
      assert ok ==> Rest() == t[1..];
    }

    method EatSymbols(syms: string) returns (ok: bool)
      requires Valid() && syms != []
      modifies this`pos, this`len
      ensures Valid() && pos + len == old(pos + len)
      ensures ok == Expect(old(Rest()), syms).Got?
      ensures Rest() == if ok then Expect(old(Rest()), syms).rest else Trim(old(Rest()))
    {
      var found := SkipSpaces();
      if !found || len == 0 {
        return false;
      }
      ghost var t, p := Rest(), pos;
      ok := EatAll(syms);
      PrefixAt(text, p, p + |t|, syms);
      assert ok ==> Rest() == t[|syms|..];
    }

    /** All the symbols, one after the other, or none. */
    method EatAll(syms: string) returns (ok: bool)
      requires Valid()
      modifies this`pos, this`len
      ensures Valid() && ok == Matches(text, old(pos), old(pos) + old(len), syms, |syms|)
      ensures pos == (if ok then old(pos) + |syms| else old(pos)) && len == if ok then old(len) - |syms| else old(len)
    {
      var pos0, len0 := pos, len;
      var i := 0;
      while i < |syms|
        invariant 0 <= i <= |syms| && i <= len0 && pos == pos0 + i && len == len0 - i && Valid()
        invariant Matches(text, pos0, pos0 + len0, syms, i)
      {
        var eaten := EatHere(syms[i]);
        if !eaten {
          pos, len := pos0, len0;
          return false;
        }
        i := i + 1;
      }
      ok := true;
    }

    method EatWord(word: string) returns (ok: bool)
      requires Valid() && word != []
      modifies this`pos, this`len
      ensures Valid() && pos + len == old(pos + len)
      ensures ok == Expect(old(Rest()), word).Got?
      ensures Rest() == if ok then Expect(old(Rest()), word).rest else Trim(old(Rest()))
    {
      var found := SkipSpaces();
      if found && len >= |word| {
        ghost var t := Rest();
        assert t[..|word|] == text[pos..pos + |word|];
        if text[pos..pos + |word|] == word {
          pos, len := pos + |word|, len - |word|;
          assert Rest() == t[|word|..];
          return true;
        }
      }
      ok := false;
    }

    /** `get_quoted`. A refusal after an opening quote lowers `len` and leaves the
        stream: that alone breaks the sum of position and length. */
    method GetQuoted(skip: bool) returns (r: Option<string>)
      requires Valid() && Intact()
      modifies this`pos, this`len
      ensures Valid()
      ensures var t := if skip then Trim(old(Rest())) else old(Rest());
              && (r.Some? <==> Quoted(t).Got?)
              && (r.Some? ==> r.value == Quoted(t).value && Rest() == Quoted(t).rest)
              && (r.None? ==> Rest() == AfterNoQuoted(t))
              && (Intact() <==> r.Some? || t == [] || t[0] != '\"')
    {
      if skip {
        var found := SkipSpaces();
        if !found {
          return None;
        }
      }
      r := QuotedHere();
    }

    method QuotedHere() returns (r: Option<string>)
      requires Valid() && Intact()
      modifies this`pos, this`len
      ensures Valid() && (r.Some? <==> Quoted(old(Rest())).Got?)
      ensures r.Some? ==> r.value == Quoted(old(Rest())).value && Rest() == Quoted(old(Rest())).rest
      ensures r.None? ==> Rest() == AfterNoQuoted(old(Rest()))
      ensures Intact() <==> r.Some? || old(Rest()) == [] || old(Rest())[0] != '\"'
    {
      if Peek() != '\"' {
        return None;
      }
      var from := pos + 1;
      assert Rest() == text[pos..];
      len := len - 1;
      var p := ScanQuote(from);
      QuotedIs(text, from - 1, p);
      if len == 0 || p == from {
        return None;
      }
      pos := p + 1;
      len := len - 1;
      assert Rest() == text[pos..];
      return Some(CStr(text[from..p]));
    }

    /** The loop of `get_quoted`: to the next quote or to the end. */
    method ScanQuote(from: nat) returns (p: nat)
      requires from + len == |text|
      modifies this`len
      ensures from <= p && p + len == |text|
      ensures forall i :: from <= i < p ==> text[i] != '\"'
      ensures len > 0 ==> text[p] == '\"'
    {
      p := from;
      while len > 0 && text[p] != '\"'
        invariant from <= p && p + len == |text|
        invariant forall i :: from <= i < p ==> text[i] != '\"'
      {
        p, len := p + 1, len - 1;
      }
    }

    method ReadBracket(s: Strategy) returns (ok: bool)
      requires Valid() && Intact()
      modifies this`pos, this`len
      ensures Valid() && Intact() && ok == ParseBracket(old(Rest()), s).Got?
      ensures ok ==> ParseBracket(old(Rest()), s) == Got(s, Rest())
    {
      ok := EatSymbols("\n - ");
      if !ok {
        return;
      }
      ok := EatWord("\"properties\":");
      if !ok {
        return;
      }
      ok := EatSymbol('[', true);
    }

    method ReadStrategy() returns (r: Option<Strategy>)
      requires Valid() && Intact()
      modifies this`pos, this`len
      ensures Valid() && r.Some? == ParseStrategy(old(Rest())).Got?
      ensures r.Some? ==> Intact() && ParseStrategy(old(Rest())) == Got(r.value, Rest())
    {
      var ok := EatSymbols(":\n - ");
      if !ok {
        return None;
      }
      ok := EatWord("\"strategy\":");
      if !ok {
        return None;
      }
      r := ReadValue();
    }

    method ReadValue() returns (r: Option<Strategy>)
      requires Valid() && Intact()
      modifies this`pos, this`len
      ensures Valid() && r.Some? == ParseValue(old(Rest())).Got?
      ensures r.Some? ==> Intact() && ParseValue(old(Rest())) == Got(r.value, Rest())
    {
      var p := GetQuoted(true);
      if p.None? {
        return None;
      }
      r := StrategyOf(p.value);
      if r.Some? {
        var ok := ReadBracket(r.value);
        if !ok {
          return None;
        }
      }
    }

    /** After a property: a comma (true) or the closing bracket (false). */
    method ReadSeparator() returns (r: Option<bool>)
      requires Valid() && Intact()
      modifies this`pos, this`len
      ensures Valid() && Intact() && r == Separator(Trim(old(Rest())))
      ensures r.Some? ==> Rest() == Trim(old(Rest()))[1..]
    {
      var comma := EatSymbol(',', true);
      if comma {
        return Some(true);
      }
      if Peek() == ']' {
        assert Rest()[1..] == text[pos + 1..pos + len];
        pos, len := pos + 1, len - 1;
        return Some(false);
      }
      r := None;
    }

    method ReadProps() returns (r: Option<seq<string>>)
      requires Valid() && Intact()
      modifies this`pos, this`len
      ensures Valid() && r.Some? == ParseProps(old(Rest()), []).Got?
      ensures r.Some? ==> ParseProps(old(Rest()), []) == Got(r.value, Rest())
      ensures r.Some? ==> Intact() || Rest() == [] || Rest()[0] == '\"'
    {
      ghost var want := ParseProps(Rest(), []);
      var props := [];
      while true
        invariant Valid() && Intact() && ParseProps(Rest(), props) == want
        decreases len
      {
        ghost var t := Rest();
        var p := GetQuoted(true);
        if p.None? {
          return Some(props);
        }
        var more := ReadSeparator();
        if more.None? {
          return None;
        }
        props := props + [p.value];
        if !more.value {
          return Some(props);
        }
        assert |Rest()| < |t|;
      }
    }

    method ReadEnd(props: seq<string>) returns (ok: bool)
      requires Valid()
      modifies this`pos, this`len
      ensures Valid() && ok == ParseEnd(old(Rest()), props).Got?
      ensures ok ==> ParseEnd(old(Rest()), props) == Got((), Rest())
      ensures ok ==> len == 0 || pos + len == old(pos + len)
    {
      if props == [] {
        var closed := EatSymbol(']', true);
        if !closed {
          return false;
        }
      }
      var newline := EatSymbol('\n', true);
      ok := newline || len == 0;
    }

    method ReadList() returns (r: Option<seq<string>>)
      requires Valid() && Intact()
      modifies this`pos, this`len
      ensures Valid() && r.Some? == ParseList(old(Rest())).Got?
      ensures r.Some? ==> ParseList(old(Rest())) == Got(r.value, Rest()) && (Intact() || len == 0)
    {
      r := ReadProps();
      if r.Some? {
        assert Rest() != [] && Rest()[0] == '\"' ==> ParseEnd(Rest(), r.value) == Fail;
        var ok := ReadEnd(r.value);
        if !ok {
          return None;
        }
      }
    }

    /** One turn of the loop of `cgp_parse_stream`. */
    method ReadDecl() returns (r: Option<Decl>)
      requires Valid() && Intact()
      modifies this`pos, this`len
      ensures Valid() && r.Some? == ParseDecl(old(Rest())).Got?
      ensures r.Some? ==> ParseDecl(old(Rest())) == Got(r.value, Rest()) && (Intact() || len == 0)
    {
      var name := GetQuoted(false);
      if name.None? {
        return None;
      }
      var strategy := ReadStrategy();
      if strategy.None? {
        return None;
      }
      var props := ReadList();
      if props.None? {
        return None;
      }
      r := Some(Decl(name.value, strategy.value, props.value));
    }
  }
}
