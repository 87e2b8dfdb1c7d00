/** The controller registry of `cgroup-props.c`, filled by merging or replacing. */
module CgroupProps {
  import opened Options
  import opened CgroupText

  // ----- The registry -----

  datatype Entry = Entry(name: string, props: seq<string>)

  ghost predicate Distinct(es: seq<Entry>) {
    forall i, j :: 0 <= i < j < |es| ==> es[i].name != es[j].name
  }

  function Find(es: seq<Entry>, name: string): (k: nat)
    ensures k <= |es| && (forall i :: 0 <= i < k ==> es[i].name != name)
    ensures k < |es| ==> es[k].name == name
  {
    if es == [] || es[0].name == name then 0 else 1 + Find(es[1..], name)
  }

  /** The list after one paragraph: merging appends in place, anything else leaves the
      new entry at the head. */
  function Handle(es: seq<Entry>, d: Decl): seq<Entry> {
    var k := Find(es, d.name);
    if k == |es| then [Entry(d.name, d.props)] + es
    else if d.strategy.Merge? then es[k := Entry(d.name, es[k].props + d.props)]
    else [Entry(d.name, d.props)] + es[..k] + es[k + 1..]
  }

  function HandleAll(es: seq<Entry>, ds: seq<Decl>): seq<Entry>
    decreases |ds|
  {
    if ds == [] then es else HandleAll(Handle(es, ds[0]), ds[1..])
  }

  lemma DropAndAdd(es: seq<Entry>, d: Decl, k: nat)
    requires k == Find(es, d.name) < |es| && d.strategy.Replace?
    ensures [Entry(d.name, d.props)] + (es[..k] + es[k + 1..]) == Handle(es, d)
  {}

  class Registry {
    var entries: seq<Entry>

    ghost predicate Valid()
      reads this
    {
      Distinct(entries)
    }

    /** `cgp_merge_props` */
    method MergeProps(k: nat, more: seq<string>)
      requires Valid() && k < |entries|
      modifies this`entries
      ensures Valid() && entries == old(entries)[k := Entry(old(entries)[k].name, old(entries)[k].props + more)]
    {
      var j := 0;
      assert entries[k].props + more[..0] == entries[k].props;
      while j < |more|
        invariant 0 <= j <= |more| && Valid()
        invariant entries == old(entries)[k := Entry(old(entries)[k].name, old(entries)[k].props + more[..j])]
      {
        assert old(entries)[k].props + more[..j + 1] == old(entries)[k].props + more[..j] + [more[j]];
        entries := entries[k := Entry(entries[k].name, entries[k].props + [more[j]])];
        j := j + 1;
      }
      assert more[..j] == more;
    }

    /** `cgp_handle_props` */
    method HandleProps(d: Decl)
      requires Valid()
      modifies this`entries
      ensures Valid() && entries == Handle(old(entries), d)
    {
      HandleKeepsDistinct(entries, d);
      var k := FindEntry(d.name);
      if k < |entries| {
        if d.strategy.Merge? {
          MergeProps(k, d.props);
          return;
        }
        DropAndAdd(entries, d, k);
        entries := entries[..k] + entries[k + 1..];
      }
      entries := [Entry(d.name, d.props)] + entries;
    }

    /** The first entry of that name, or the number of entries. */
    method FindEntry(name: string) returns (k: nat)
      ensures k == Find(entries, name)
    {
      k := 0;
      while k < |entries| && entries[k].name != name
        invariant 0 <= k <= |entries| && forall i :: 0 <= i < k ==> entries[i].name != name
      {
        k := k + 1;
      }
    }

    /** `cgp_parse_stream`: for every text, the paragraphs up to the first refused one,
        each applied to the registry in turn. */
    method ParseStream(text: string) returns (ok: bool)
      requires Valid()
      modifies this
      ensures Valid() && ok == ParseAll(text).ok
      ensures entries == HandleAll(old(entries), ParseAll(text).decls)
    {
      var c := new Cursor(text);
      ghost var all := ParseAll(text);
      ghost var done := [];
      while c.len > 0
        invariant c.Valid() && (c.Intact() || c.len == 0) && fresh(c) && Valid()
        invariant all == Outcome(ParseAll(c.Rest()).ok, done + ParseAll(c.Rest()).decls)
        invariant entries == HandleAll(old(entries), done)
        decreases c.len
      {
        ghost var t := c.Rest();
        var d := c.ReadDecl();
        if d.None? {
          ParseAllFails(t);
          assert done + [] == done;
          return false;
        }
        ParseAllCons(t, d.value, c.Rest());
        HandleAllAppend(old(entries), done, d.value);
        HandleProps(d.value);
        DeclsJoin(done, d.value, ParseAll(c.Rest()).decls);
        done := done + [d.value];
      }
      assert done + [] == done;
      ok := true;
    }

    /** `cgp_get_props` */
    method GetProps(name: string) returns (r: Option<seq<string>>)
      requires Valid()
      ensures r == if name in AsMap(entries) then Some(AsMap(entries)[name]) else None
    {
      var k := 0;
      while k < |entries|
        invariant 0 <= k <= |entries| && forall i :: 0 <= i < k ==> entries[i].name != name
      {
        if entries[k].name == name {
          LookupAt(entries, k);
          return Some(entries[k].props);
        }
        k := k + 1;
      }
      LookupNowhere(entries, name);
      r := None;
    }
  }

  // ----- The registry as a map -----

  function AsMap(es: seq<Entry>): map<string, seq<string>> {
    if es == [] then map[] else AsMap(es[1..])[es[0].name := es[0].props]
  }

  /** What one paragraph promises to do. */
  function Effect(m: map<string, seq<string>>, d: Decl): map<string, seq<string>> {
    if d.name in m && d.strategy.Merge? then m[d.name := m[d.name] + d.props] else m[d.name := d.props]
  }

  function Fold(m: map<string, seq<string>>, ds: seq<Decl>): map<string, seq<string>>
    decreases |ds|
  {
    if ds == [] then m else Fold(Effect(m, ds[0]), ds[1..])
  }

  lemma {:induction false} LookupNowhere(es: seq<Entry>, name: string)
    requires forall i :: 0 <= i < |es| ==> es[i].name != name
    ensures name !in AsMap(es)
  {
    if es != [] { LookupNowhere(es[1..], name); }
  }

  lemma {:induction false} LookupAt(es: seq<Entry>, k: nat)
    requires k < |es| && forall i :: 0 <= i < k ==> es[i].name != es[k].name
    ensures es[k].name in AsMap(es) && AsMap(es)[es[k].name] == es[k].props
  {
    if k > 0 { LookupAt(es[1..], k - 1); }
  }

  lemma HandleKeepsDistinct(es: seq<Entry>, d: Decl)
    requires Distinct(es)
    ensures Distinct(Handle(es, d))
  {
  }

  lemma DeclsJoin(done: seq<Decl>, d: Decl, more: seq<Decl>)
    ensures done + ([d] + more) == done + [d] + more
  {}

  lemma {:induction false} HandleAllAppend(es: seq<Entry>, ds: seq<Decl>, d: Decl)
    ensures HandleAll(es, ds + [d]) == Handle(HandleAll(es, ds), d)
    decreases |ds|
  {
    if ds == [] {
      assert ds + [d] == [d];
      assert HandleAll(Handle(es, d), []) == Handle(es, d);
    } else {
      HandleAllAppend(Handle(es, ds[0]), ds[1..], d);
      assert (ds + [d])[1..] == ds[1..] + [d];
    }
  }

  lemma LookupSome(es: seq<Entry>, i: nat)
    requires Distinct(es) && i < |es|
    ensures es[i].name in AsMap(es) && AsMap(es)[es[i].name] == es[i].props
  {
    LookupAt(es, i);
  }

  /** Where the other entries go. */
  lemma OtherEntry(es: seq<Entry>, d: Decl, i: nat)
    requires Distinct(es) && i < |es| && es[i].name != d.name
    ensures Distinct(Handle(es, d)) && exists j :: 0 <= j < |Handle(es, d)| && Handle(es, d)[j] == es[i]
  {
    HandleKeepsDistinct(es, d);
    var k, es' := Find(es, d.name), Handle(es, d);
    if k == |es| || (d.strategy.Replace? && i < k) {
      assert es'[i + 1] == es[i];
    } else {
      assert es'[i] == es[i];
    }
  }

  /** No entry comes from elsewhere. */
  lemma OnlyKnownNames(es: seq<Entry>, d: Decl, j: nat)
    requires j < |Handle(es, d)| && Handle(es, d)[j].name != d.name
    ensures Handle(es, d)[j] in es
  {}

  /** The entry of the paragraph itself. */
  lemma OwnEntry(es: seq<Entry>, d: Decl)
    requires Distinct(es)
    ensures d.name in AsMap(Handle(es, d)) && AsMap(Handle(es, d))[d.name] == Effect(AsMap(es), d)[d.name]
  {
    HandleKeepsDistinct(es, d);
    var k := Find(es, d.name);
    if k < |es| { LookupSome(es, k); } else { LookupNowhere(es, d.name); }
    LookupSome(Handle(es, d), if k < |es| && d.strategy.Merge? then k else 0);
  }

  lemma OtherName(es: seq<Entry>, d: Decl, n: string)
    requires Distinct(es) && n != d.name
    ensures n in AsMap(Handle(es, d)) <==> n in AsMap(es)
    ensures n in AsMap(es) ==> AsMap(Handle(es, d))[n] == AsMap(es)[n]
  {
    var i := Find(es, n);
    if i < |es| {
      OtherEntry(es, d, i);
      var j :| 0 <= j < |Handle(es, d)| && Handle(es, d)[j] == es[i];
      LookupSome(es, i);
      LookupSome(Handle(es, d), j);
    } else {
      LookupNowhere(es, n);
      forall j | 0 <= j < |Handle(es, d)| ensures Handle(es, d)[j].name != n {
        if Handle(es, d)[j].name != d.name { OnlyKnownNames(es, d, j); }
      }
      LookupNowhere(Handle(es, d), n);
    }
  }

  /** The list code does what the paragraph promises, whatever the list's order. */
  lemma HandleIsEffect(es: seq<Entry>, d: Decl)
    requires Distinct(es)
    ensures Distinct(Handle(es, d)) && AsMap(Handle(es, d)) == Effect(AsMap(es), d)
  {
    HandleKeepsDistinct(es, d);
    OwnEntry(es, d);
    forall n | n != d.name
      ensures n in AsMap(Handle(es, d)) <==> n in AsMap(es)
      ensures n in AsMap(es) ==> AsMap(Handle(es, d))[n] == AsMap(es)[n]
    {
      OtherName(es, d, n);
    }
  }

  /** At most one entry per controller, and look-up is the left fold of merge and replace. */
  lemma {:induction false} RegistryIsFold(es: seq<Entry>, ds: seq<Decl>)
    requires Distinct(es)
    ensures Distinct(HandleAll(es, ds)) && AsMap(HandleAll(es, ds)) == Fold(AsMap(es), ds)
    decreases |ds|
  {
    if ds != [] {
      HandleIsEffect(es, ds[0]);
      RegistryIsFold(Handle(es, ds[0]), ds[1..]);
    }
  }
}
