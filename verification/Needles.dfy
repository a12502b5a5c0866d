/** From a validated configuration to the needles of the export hook, and back. */
module Needles {
  import opened Octet
  import opened Options
  import opened JsonExport
  import opened Validate

  // ---- The tables of names ----

  function TypeNamed(s: string): Option<Type> {
    if s == "text" then Some(Text) else if s == "timestamp" then Some(Time) else None
  }

  function ActionNamed(s: string): Option<Action> {
    if s == "store" then Some(Store)
    else if s == "store_true" then Some(StoreTrue)
    else if s == "discard_false" then Some(DiscardFalse)
    else if s == "discard_true" then Some(DiscardTrue)
    else if s == "store_meta" then Some(StoreMeta)
    else None
  }

  function FilterNamed(s: string, data: seq<octet>): Option<Filter> {
    if s == "noop" then Some(Noop)
    else if s == "match" then Some(Match(data))
    else if s == "substr" then Some(Substr(data))
    else if s == "exists" then Some(Exists)
    else None
  }

  /** A C string holds bytes. */
  predicate IsBytes(s: string) {
    forall i :: 0 <= i < |s| ==> s[i] as int < 256
  }

  function Octets(s: string): seq<octet>
    requires IsBytes(s)
  {
    seq(|s|, i requires 0 <= i < |s| => s[i] as int)
  }

  /** _needles on one entry; an entry of another shape aborts. */
  function Read(c: Setting): Option<Needle> {
    if !c.Arr? || |c.elems| < 5 || !IsBytes(c.elems[4]) then None
    else
      var t, a, f := TypeNamed(c.elems[1]), ActionNamed(c.elems[2]), FilterNamed(c.elems[3], Octets(c.elems[4]));
      if t.None? || a.None? || f.None? then None else Some(Needle(c.elems[0], t.value, a.value, f.value))
  }

  // ---- How a needle is written ----

  function Written(n: Needle): Setting {
    var t := match n.format case Text => "text" case Time => "timestamp";
    var a := match n.action
      case Store => "store"
      case StoreTrue => "store_true"
      case DiscardFalse => "discard_false"
      case DiscardTrue => "discard_true"
      case StoreMeta => "store_meta";
    match n.filter
    case Noop => Arr([n.pointer, t, a, "noop", ""])
    case Match(data) => Arr([n.pointer, t, a, "match", Chars(data)])
    case Substr(data) => Arr([n.pointer, t, a, "substr", Chars(data)])
    case Exists => Arr([n.pointer, t, a, "exists", ""])
  }

  lemma CharsBack(d: seq<octet>)
    ensures IsBytes(Chars(d)) && Octets(Chars(d)) == d
  {
  }

  lemma OctetsBack(s: string)
    requires IsBytes(s)
    ensures Chars(Octets(s)) == s
  {
  }

  /** Every needle can be configured: what it is written as is normal and is read back as the needle. */
  lemma WrittenReads(n: Needle)
    ensures IsNormal(Written(n)) && Read(Written(n)) == Some(n)
  {
    hide Chars, Octets, IsBytes;
    CharsBack([]);
    NoChars();
    if n.filter.Match? || n.filter.Substr? {
      CharsBack(n.filter.text);
    }
  }

  lemma NoChars()
    ensures Chars([]) == ""
  {
  }

  /** The needle is what the five strings name. */
  ghost predicate Named(n: Needle, e: seq<string>)
    requires |e| == 5 && IsBytes(e[4])
  {
    && n.pointer == e[0]
    && (n.format == Time <==> e[1] == "timestamp") && (n.format == Text <==> e[1] == "text")
    && (n.action == Store <==> e[2] == "store") && (n.action == StoreTrue <==> e[2] == "store_true")
    && (n.action == DiscardFalse <==> e[2] == "discard_false") && (n.action == DiscardTrue <==> e[2] == "discard_true")
    && (n.action == StoreMeta <==> e[2] == "store_meta")
    && (n.filter == Noop <==> e[3] == "noop") && (n.filter == Exists <==> e[3] == "exists")
    && (n.filter == Match(Octets(e[4])) <==> e[3] == "match") && (n.filter == Substr(Octets(e[4])) <==> e[3] == "substr")
  }

  /** Every normal entry configures a needle, and is exactly what that needle is written as; so validation
      lets no unknown type, action or filter through to the hook. */
  lemma NormalReads(c: Setting)
    requires IsNormal(c) && IsBytes(c.elems[4])
    ensures Read(c).Some? && Written(Read(c).value) == c && Named(Read(c).value, c.elems)
  {
    hide Chars, Octets, IsBytes;
    OctetsBack(c.elems[4]);
    var e := c.elems;
    assert e == [e[0], e[1], e[2], e[3], e[4]];
  }
}
