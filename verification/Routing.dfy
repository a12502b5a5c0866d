/** The hook that routes messages: it sets the mark that selects a lane of the queue. */
module Routing {
  import opened Options
  import opened QueueSpec
  import opened Masks
  import opened Bits
  import opened Fnv
  import opened Octet
  import opened Protocol
  import opened LaneOrder
  import M = Metadata

  /** A metadata entry: a string, or something else. */
  datatype Datum = Text(bytes: seq<octet>) | Other

  datatype Folding = NoFold | FoldTo(bits: nat)

  /** The hook's configuration: the metadata field to hash, if any, how to fold, and the mark to fall back to. */
  datatype Hook = Hook(field: Option<string>, folding: Folding, xmark: uint32)

  ghost predicate Configured(hook: Hook) {
    hook.folding.FoldTo? ==> 1 <= hook.folding.bits <= 31
  }

  function Folded(folding: Folding, h: nat): nat
    requires folding.FoldTo? ==> 1 <= folding.bits <= 31
  {
    if folding.NoFold? then h else Fold(folding.bits, h)
  }

  lemma FoldedFits(folding: Folding, h: word)
    requires folding.FoldTo? ==> 1 <= folding.bits <= 31
    ensures Folded(folding, h) < 0x1_0000_0000
    ensures folding.FoldTo? ==> Folded(folding, h) < Pow2(folding.bits)
  {
    hide Pow2, Fold;
    WordIsPow2();
    if folding.FoldTo? {
      FoldIsLowBits(folding.bits, h);
      Pow2Below(folding.bits, 32);
    }
  }

  lemma {:induction false} Pow2Below(m: nat, n: nat)
    requires m <= n
    ensures Pow2(m) <= Pow2(n)
  {
    if m < n {
      Pow2Below(m, n - 1);
    }
  }

  /** The mark of a message with the given metadata: the folded hash of the field's string, or the fallback. */
  function Route(hook: Hook, md: map<string, Datum>): (mark: uint32)
    requires Configured(hook)
  {
    if hook.field.Some? && hook.field.value in md && md[hook.field.value].Text? then
      var h := Hash(md[hook.field.value].bytes, FNV_32A_INIT);
      FoldedFits(hook.folding, h);
      Folded(hook.folding, h)
    else hook.xmark
  }

  /** Without a field, without an entry for it, or with one that is no string, the mark is the configured one. */
  lemma FallbackMark(hook: Hook, md: map<string, Datum>)
    requires Configured(hook)
    requires hook.field.None? || hook.field.value !in md || md[hook.field.value] == Other
    ensures Route(hook, md) == hook.xmark
  {
  }

  /** With a string it is the string's hash, or the exclusive or of the n high and the n low bits of it. */
  lemma StringMark(hook: Hook, md: map<string, Datum>, key: seq<octet>)
    requires Configured(hook) && hook.field.Some? && hook.field.value in md && md[hook.field.value] == Text(key)
    ensures var h := Hash(key, 0x811C9DC5);
            && (hook.folding == NoFold ==> Route(hook, md) == h)
            && (hook.folding.FoldTo? ==>
                  var n := hook.folding.bits;
                  Route(hook, md) == Xor(Quotient(h, Pow2(32 - n)), Remainder(h, Pow2(n))))
  {
    hide Hash;
    if hook.folding.FoldTo? {
      FoldIsXor(hook.folding.bits, Hash(key, 0x811C9DC5));
    }
  }

  /** h_xmark: looks the field up in the message's metadata and sets the mark. */
  method HXmark(hook: Hook, md: M.Metadata<string, Datum>, msg: Message) returns (r: Message)
    requires Configured(hook) && md.Valid()
    ensures r == msg.(mark := Route(hook, md.Map()))
    ensures hook.field.None? || hook.field.value !in md.Map() || md.Map()[hook.field.value] == Other ==> r.mark == hook.xmark
  {
    hide Hash, Folded;
    if hook.field.Some? {
      var d := md.Find(hook.field.value);
      if d.None? || d.value.Other? {
        return msg.(mark := hook.xmark);
      }
      var h := Fnv32a(d.value.bytes, FNV_32A_INIT);
      FoldedFits(hook.folding, h);
      r := msg.(mark := Folded(hook.folding, h));
    } else {
      r := msg.(mark := hook.xmark);
    }
  }

  /** Messages with the same string in the field get the same mark, whatever else they carry. */
  lemma EqualKeysShareALane(hook: Hook, a: map<string, Datum>, b: map<string, Datum>)
    requires Configured(hook) && hook.field.Some? && hook.field.value in a && hook.field.value in b
    requires a[hook.field.value] == b[hook.field.value]
    ensures Route(hook, a) == Route(hook, b)
  {
  }

  /** Without folding, messages whose strings differ in exactly one byte never share a lane. */
  lemma NeighboursApart(hook: Hook, a: map<string, Datum>, b: map<string, Datum>,
                        p: seq<octet>, x: octet, y: octet, z: seq<octet>)
    requires hook.field.Some? && hook.folding.NoFold? && hook.field.value in a && hook.field.value in b && x != y
    requires a[hook.field.value] == Text(p + [x] + z) && b[hook.field.value] == Text(p + [y] + z)
    ensures Route(hook, a) != Route(hook, b)
  {
    hide Hash;
    OneByteApart(p, x, y, z, FNV_32A_INIT);
  }

  /** In every run, two messages that were marked by one string key and added one after the other are taken in
      that order: once the later one was taken, so was the earlier one, before it. */
  lemma SameKeyKeepsOrder(hook: Hook, ma: map<string, Datum>, mb: map<string, Datum>,
                          n: nat, lanes: seq<uint32>, run: seq<Action>, i: nat, j: nat)
    returns (a: nat, b: nat)
    requires Configured(hook) && hook.field.Some? && hook.field.value in ma && hook.field.value in mb
    requires ma[hook.field.value] == mb[hook.field.value]
    requires var s := After(Start(n, lanes), run);
             && i < j < |s.linked| && s.linked[j] in s.taken
             && s.linked[i].mark == Route(hook, ma) && s.linked[j].mark == Route(hook, mb)
    ensures var s := After(Start(n, lanes), run);
            a < b < |s.taken| && s.taken[a] == s.linked[i] && s.taken[b] == s.linked[j]
  {
    hide Route, After, Start;
    EqualKeysShareALane(hook, ma, mb);
    a, b := TakenInOrder(n, lanes, run, i, j);
  }
}
