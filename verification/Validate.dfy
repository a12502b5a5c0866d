/**
 The configuration of the JSON export hook: every entry of its list of pointers may be written as a string,
 an array or a group, and validation rewrites the list in place to arrays of five strings.
 */
module Validate {
  import opened Options

  /** One entry of the list. A group is given by its members that are strings. Headless is an array of five
      strings whose first one is null, Unset one whose strings are all null. */
  datatype Setting =
    | Str(text: string)
    | OtherScalar
    | Arr(elems: seq<string>)
    | OtherArr
    | Group(members: map<string, string>)
    | List
    | Headless
    | Unset

  predicate IsType(s: string) {
    s == "text" || s == "timestamp"
  }

  predicate IsAction(s: string) {
    s == "store" || s == "store_true" || s == "discard_false" || s == "discard_true" || s == "store_meta"
  }

  predicate IsFilter(s: string) {
    s == "noop" || s == "match" || s == "substr" || s == "exists"
  }

  predicate NeedsData(filter: string) {
    filter == "match" || filter == "substr"
  }

  /** The five strings of an entry, where each part may be left out; None is a configuration error. */
  function Normal(pointer: string, t: Option<string>, a: Option<string>, f: Option<string>, d: Option<string>): Option<Setting> {
    var t', a', f' := Or(t, "text"), Or(a, "store"), Or(f, "noop");
    if !IsType(t') || !IsAction(a') || !IsFilter(f') then None
    else if !NeedsData(f') then Some(Arr([pointer, t', a', f', ""]))
    else if d.None? then None
    else Some(Arr([pointer, t', a', f', d.value]))
  }

  function Or(o: Option<string>, default: string): string {
    if o.Some? then o.value else default
  }

  function Elem(e: seq<string>, i: nat): Option<string> {
    if i < |e| then Some(e[i]) else None
  }

  function Member(g: map<string, string>, k: string): Option<string> {
    if k in g then Some(g[k]) else None
  }

  /** What one entry becomes. An entry that is itself a list is reported but let through, without a pointer. */
  function Normalise(c: Setting): Option<Setting> {
    match c
    case Str(p) => Normal(p, None, None, None, None)
    case OtherScalar => None
    case Arr(e) => if e == [] then None else Normal(e[0], Elem(e, 1), Elem(e, 2), Elem(e, 3), Elem(e, 4))
    case OtherArr => None
    case Group(g) =>
      if "jpointer" !in g then None
      else Normal(g["jpointer"], Member(g, "pqtype"), Member(g, "action"), Member(g, "filter"), Member(g, "data"))
    case List => Some(Headless)
    case Headless => None
    case Unset => None
  }

  /** The first n entries, each in its normal form. */
  function NormalList(l: seq<Setting>, n: nat): (r: seq<Setting>)
    requires n <= |l| && forall i :: 0 <= i < n ==> Normalise(l[i]).Some?
    ensures |r| == n && forall i :: 0 <= i < n ==> r[i] == Normalise(l[i]).value
  {
    if n == 0 then [] else NormalList(l, n - 1) + [Normalise(l[n - 1]).value]
  }

  /** One turn of the rotation. */
  lemma Rotated(l: seq<Setting>, i: nat, n: Setting)
    requires i < |l| && (forall j :: 0 <= j <= i ==> Normalise(l[j]).Some?) && Normalise(l[i]) == Some(n)
    ensures var list := l[i..] + NormalList(l, i) + [Unset];
            (list[..|list| - 1] + [n])[1..] == l[i + 1..] + NormalList(l, i + 1)
  {
    hide Normalise;
    var list := l[i..] + NormalList(l, i) + [Unset];
    assert list[..|list| - 1] == l[i..] + NormalList(l, i);
    assert (l[i..] + NormalList(l, i) + [n])[1..] == l[i + 1..] + (NormalList(l, i) + [n]);
  }

  class Config {
    /** The list of pointers. */
    var list: seq<Setting>

    constructor (list: seq<Setting>)
      ensures this.list == list
    {
      this.list := list;
    }

    /** The loop of h_jsonexport_validate: append an array of five unset strings, set them to the normal form
        of the first entry, drop the first entry. On an error the list stays behind half rotated, with the
        unset strings at its end. */
    method Validate() returns (ok: bool, ghost done: nat)
      modifies this
      ensures done <= |old(list)| && forall i :: 0 <= i < done ==> Normalise(old(list)[i]).Some?
      ensures ok <==> done == |old(list)|
      ensures ok ==> list == NormalList(old(list), done)
      ensures !ok ==> Normalise(old(list)[done]).None? && list == old(list)[done..] + NormalList(old(list), done) + [Unset]
    {
      hide Normalise;
      ghost var l := list;
      var i := 0;
      while i < |list|
        invariant 0 <= i <= |l| == |list|
        invariant forall j :: 0 <= j < i ==> Normalise(l[j]).Some?
        invariant list == l[i..] + NormalList(l, i)
      {
        var child := list[0];
        assert child == l[i];
        list := list + [Unset];
        var n := Normalise(child);
        if n.None? {
          return false, i;
        }
        Rotated(l, i, n.value);
        list := list[..|list| - 1] + [n.value];
        list := list[1..];
        i := i + 1;
      }
      return true, i;
    }
  }

  // ---- What each spelling becomes, and what is refused ----

  /** The five strings are these parts, each the given word or its default; data only for filters that match. */
  ghost predicate Spells(r: Setting, pointer: string, t: Option<string>, a: Option<string>, f: Option<string>,
                         d: Option<string>) {
    && r.Arr? && |r.elems| == 5
    && r.elems[0] == pointer
    && r.elems[1] == (if t.Some? then t.value else "text")
    && r.elems[2] == (if a.Some? then a.value else "store")
    && r.elems[3] == (if f.Some? then f.value else "noop")
    && r.elems[4] == (if d.Some? && f.Some? && f.value in {"match", "substr"} then d.value else "")
  }

  /** A word is unknown, or the data a filter needs is missing. */
  ghost predicate Faulty(t: Option<string>, a: Option<string>, f: Option<string>, d: Option<string>) {
    || (t.Some? && t.value !in {"text", "timestamp"})
    || (a.Some? && a.value !in {"store", "store_true", "discard_false", "discard_true", "store_meta"})
    || (f.Some? && f.value !in {"noop", "match", "substr", "exists"})
    || (f.Some? && f.value in {"match", "substr"} && d.None?)
  }

  lemma NormalSpells(pointer: string, t: Option<string>, a: Option<string>, f: Option<string>, d: Option<string>)
    ensures var r := Normal(pointer, t, a, f, d);
            (r.None? <==> Faulty(t, a, f, d)) && (r.Some? ==> Spells(r.value, pointer, t, a, f, d))
  {
  }

  /** A string is its pointer with all defaults. */
  lemma StringEntry(p: string)
    ensures Normalise(Str(p)) == Some(Arr([p, "text", "store", "noop", ""]))
  {
  }

  /** An array gives its parts by position, and is refused exactly if it is empty or faulty. */
  lemma ArrayEntry(e: seq<string>)
    ensures Normalise(Arr(e)).None? <==>
            e == [] || Faulty(Elem(e, 1), Elem(e, 2), Elem(e, 3), Elem(e, 4))
    ensures Normalise(Arr(e)).Some? ==>
              e != [] && Spells(Normalise(Arr(e)).value, e[0], Elem(e, 1), Elem(e, 2), Elem(e, 3), Elem(e, 4))
    ensures forall i: nat :: Elem(e, i) == if i < |e| then Some(e[i]) else None
  {
    hide Normal, Faulty, Spells;
    if e != [] {
      NormalSpells(e[0], Elem(e, 1), Elem(e, 2), Elem(e, 3), Elem(e, 4));
    }
  }

  /** A group gives its parts by name, and is refused exactly if it names no pointer or is faulty. */
  lemma GroupEntry(g: map<string, string>)
    ensures Normalise(Group(g)).None? <==>
            "jpointer" !in g || Faulty(Member(g, "pqtype"), Member(g, "action"), Member(g, "filter"), Member(g, "data"))
    ensures Normalise(Group(g)).Some? ==>
              "jpointer" in g && Spells(Normalise(Group(g)).value, g["jpointer"], Member(g, "pqtype"), Member(g, "action"),
                                        Member(g, "filter"), Member(g, "data"))
    ensures forall k :: Member(g, k) == if k in g then Some(g[k]) else None
  {
    hide Normal, Faulty, Spells;
    if "jpointer" in g {
      NormalSpells(g["jpointer"], Member(g, "pqtype"), Member(g, "action"), Member(g, "filter"), Member(g, "data"));
    }
  }

  /** Of the other entries only a list is let through, without any pointer. */
  lemma OtherEntries()
    ensures Normalise(OtherScalar).None? && Normalise(OtherArr).None? && Normalise(Headless).None? && Normalise(Unset).None?
    ensures Normalise(List) == Some(Headless)
  {
  }

  // ---- What normal means ----

  /** Normal entries are exactly the arrays of five strings with known words, and data only where needed. */
  predicate IsNormal(c: Setting) {
    && c.Arr? && |c.elems| == 5
    && IsType(c.elems[1]) && IsAction(c.elems[2]) && IsFilter(c.elems[3])
    && (!NeedsData(c.elems[3]) ==> c.elems[4] == "")
  }

  /** Normalising yields a normal entry and leaves a normal entry as it is; so a second validation changes
      nothing. Entries that are lists are the exception. */
  lemma NormaliseIdempotent(c: Setting)
    ensures IsNormal(c) <==> Normalise(c) == Some(c)
    ensures Normalise(c).Some? && !c.List? ==> IsNormal(Normalise(c).value)
  {
    hide IsType, IsAction, IsFilter, NeedsData;
    if c.Arr? && |c.elems| == 5 {
      var e := c.elems;
      assert e == [e[0], e[1], e[2], e[3], e[4]];
    }
  }

  ghost predicate AllAccepted(l: seq<Setting>) {
    forall i :: 0 <= i < |l| ==> Normalise(l[i]).Some?
  }

  ghost predicate NoLists(l: seq<Setting>) {
    forall i :: 0 <= i < |l| ==> !l[i].List?
  }

  /** A validated list passes a second validation if and only if no entry was a list, and then unchanged. */
  lemma ValidateIdempotent(l: seq<Setting>)
    requires AllAccepted(l)
    ensures AllAccepted(NormalList(l, |l|)) <==> NoLists(l)
    ensures NoLists(l) ==> var m := NormalList(l, |l|); AllAccepted(m) && NormalList(m, |m|) == m
  {
    hide Normalise, NormalList;
    var m := NormalList(l, |l|);
    forall i | 0 <= i < |m| {
      EntryAgain(l[i]);
    }
    if i :| 0 <= i < |l| && l[i].List? {
      assert Normalise(m[i]).None?;
    } else {
      assert forall i :: 0 <= i < |m| ==> Normalise(m[i]) == Some(m[i]);
    }
  }

  lemma EntryAgain(c: Setting)
    requires Normalise(c).Some?
    ensures var n := Normalise(c).value; if c.List? then Normalise(n).None? else Normalise(n) == Some(n)
  {
    hide Normalise, IsNormal;
    ListOnce();
    NormaliseIdempotent(c);
    NormaliseIdempotent(Normalise(c).value);
  }

  /** A list inside the list is accepted once, and then refused. */
  lemma ListOnce()
    ensures Normalise(List) == Some(Headless) && Normalise(Headless).None?
  {
  }

  /** The array that spells the same entry as a group. */
  function AsArray(g: map<string, string>): Setting
    requires "jpointer" in g
  {
    Arr([g["jpointer"], Or(Member(g, "pqtype"), "text"), Or(Member(g, "action"), "store"),
         Or(Member(g, "filter"), "noop")] + (if "data" in g then [g["data"]] else []))
  }

  /** The three spellings of an entry have one normal form: a group and the array of its parts, errors
      included, and a string for an entry that leaves out everything but the pointer. */
  lemma SpellingsAgree(g: map<string, string>, p: string)
    requires "jpointer" in g
    ensures Normalise(Group(g)) == Normalise(AsArray(g))
    ensures Normalise(Str(p)) == Normalise(Arr([p])) == Normalise(Group(map["jpointer" := p]))
  {
    hide IsType, IsAction, IsFilter, NeedsData;
  }
}
