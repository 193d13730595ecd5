/**
 The key=value parameters of login and text requests: a linked list that never
 holds a key twice, the scanner that fills it, and the writer whose output the
 scanner reads.
 */
module TextParams {
  import opened Names

  const MAX_KEY_LEN := 64
  const MAX_VAL_LEN := 8192

  // ---------------------------------------------------------------- lists of parameters

  datatype Entry = Entry(key: string, val: string, list: Option<string>, kind: int)

  /** The comparison of the list: the first character exactly, the rest without regard to case. */
  predicate SameKey(a: string, b: string) {
    SameName(a, b) && (a != [] ==> a[0] == b[0])
  }

  /** Where a key is found, or the length. */
  function Find(es: seq<Entry>, key: string): (i: nat)
    ensures i <= |es|
    ensures i < |es| ==> SameKey(es[i].key, key)
    ensures forall j | 0 <= j < i :: !SameKey(es[j].key, key)
  {
    if es == [] || SameKey(es[0].key, key) then 0 else 1 + Find(es[1..], key)
  }

  function Without(es: seq<Entry>, key: string): seq<Entry> {
    var i := Find(es, key);
    if i < |es| then es[..i] + es[i + 1..] else es
  }

  function Add(es: seq<Entry>, e: Entry): seq<Entry> {
    Without(es, e.key) + [e]
  }

  /** No two entries have equal keys. */
  ghost predicate Distinct(es: seq<Entry>) {
    forall i, j | 0 <= i < j < |es| :: !SameKey(es[i].key, es[j].key)
  }

  /** The value under a key. */
  function Lookup(es: seq<Entry>, key: string): Option<string> {
    var i := Find(es, key);
    if i < |es| then Some(es[i].val) else None
  }

  /** The first character decides exactly, every other one without regard to case. */
  lemma SameKeyIff(a: string, b: string)
    ensures SameKey(a, b) <==>
      |a| == |b| && forall i | 0 <= i < |a| :: a[i] == b[i] || (i > 0 && SameLetter(a[i], b[i]))
  {
    SameNameIff(a, b);
    hide SameName;
  }

  lemma SameKeyEquivalence(a: string, b: string, c: string)
    ensures SameKey(a, a)
    ensures SameKey(a, b) ==> SameKey(b, a)
    ensures SameKey(a, b) && SameKey(b, c) ==> SameKey(a, c)
  {
    assert |Lower(a)| == |a| && |Lower(b)| == |b| && |Lower(c)| == |c|;
  }

  /** Every other key keeps its entry, in order, and the deleted one has none left. */
  lemma WithoutKeepsDistinct(es: seq<Entry>, key: string)
    requires Distinct(es)
    ensures Distinct(Without(es, key))
    ensures forall i | 0 <= i < |Without(es, key)| :: !SameKey(Without(es, key)[i].key, key)
  {
    hide SameKey;
    var at := Find(es, key);
    var w := Without(es, key);
    forall i | 0 <= i < |w| ensures !SameKey(w[i].key, key) {
      if at < |es| {
        var k := if i < at then i else i + 1;
        assert w[i] == es[k];
        if i >= at {
          SameKeyEquivalence(es[at].key, key, es[k].key);
          SameKeyEquivalence(es[k].key, key, es[at].key);
        }
      }
    }
    if at < |es| {
      forall i, j | 0 <= i < j < |w| ensures !SameKey(w[i].key, w[j].key) {
        assert w[i] == es[if i < at then i else i + 1];
        assert w[j] == es[if j < at then j else j + 1];
      }
    }
  }

  lemma AddKeepsDistinct(es: seq<Entry>, e: Entry)
    requires Distinct(es)
    ensures Distinct(Add(es, e))
  {
    hide SameKey;
    WithoutKeepsDistinct(es, e.key);
  }

  lemma FindUnique(es: seq<Entry>, key: string, i: nat)
    requires i <= |es| && (i < |es| ==> SameKey(es[i].key, key))
    requires forall j | 0 <= j < i :: !SameKey(es[j].key, key)
    ensures Find(es, key) == i
  {
  }

  /** After an addition the key has the new value and every other key the value it had. */
  lemma LookupAdd(es: seq<Entry>, e: Entry, key: string)
    requires Distinct(es)
    ensures Lookup(Add(es, e), key) == if SameKey(e.key, key) then Some(e.val) else Lookup(es, key)
  {
    hide SameKey, Find;
    WithoutKeepsDistinct(es, e.key);
    var w := Without(es, e.key);
    var at, was := Find(es, e.key), Find(es, key);
    if SameKey(e.key, key) {
      forall j | 0 <= j < |w| ensures !SameKey(w[j].key, key) {
        SameKeyEquivalence(e.key, key, w[j].key);
        SameKeyEquivalence(w[j].key, key, e.key);
      }
      FindUnique(Add(es, e), key, |w|);
    } else if at == |es| {
      FindUnique(Add(es, e), key, if was < |es| then was else |es| + 1);
    } else {
      SameKeyEquivalence(es[at].key, e.key, key);
      SameKeyEquivalence(es[at].key, key, e.key);
      SameKeyEquivalence(e.key, es[at].key, key);
      assert was != at;
      FindUnique(Add(es, e), key, if was < at || was == |es| then was else was - 1);
    }
  }

  // ---------------------------------------------------------------- the linked list

  class Param {
    var next: Param?
    var entry: Entry

    constructor (entry: Entry)
      ensures this.entry == entry && next == null
    {
      this.entry, next := entry, null;
    }
  }

  class ParamList {
    var first: Param?
    ghost var nodes: seq<Param>
    ghost var entries: seq<Entry>
    ghost var repr: set<object>

    ghost predicate Linked()
      reads this, repr
    {
      && |nodes| == |entries|
      && (forall i | 0 <= i < |nodes| :: nodes[i] in repr && nodes[i].entry == entries[i])
      && (forall i, j | 0 <= i < j < |nodes| :: nodes[i] != nodes[j])
      && (forall i {:trigger nodes[i].next} | 0 <= i < |nodes| - 1 :: nodes[i].next == nodes[i + 1])
      && (nodes != [] ==> first == nodes[0] && nodes[|nodes| - 1].next == null)
      && (nodes == [] ==> first == null)
    }

    /** The list holds the entries in order, and no key twice. */
    ghost predicate Valid()
      reads this, repr
    {
      this in repr && Linked() && Distinct(entries)
    }

    constructor ()
      ensures Valid() && entries == [] && fresh(repr)
    {
      first, nodes, entries, repr := null, [], [], {this};
    }

    /** istgt_iscsi_param_find */
    method ParamFind(key: string) returns (param: Param?)
      requires Valid()
      ensures param == null <==> Find(entries, key) == |entries|
      ensures param != null ==> param == nodes[Find(entries, key)] && param.entry == entries[Find(entries, key)]
    {
      hide SameKey, Distinct;
      param := first;
      ghost var i := 0;
      while param != null
        invariant 0 <= i <= |nodes| && param == if i < |nodes| then nodes[i] else null
        invariant forall j | 0 <= j < i :: !SameKey(entries[j].key, key)
        decreases |nodes| - i
      {
        if SameKey(param.entry.key, key) {
          FindUnique(entries, key, i);
          return;
        }
        param := param.next;
        i := i + 1;
      }
      FindUnique(entries, key, i);
    }

    /** istgt_iscsi_param_del */
    method ParamDel(key: string) returns (found: bool)
      requires Valid()
      modifies repr
      ensures Valid() && repr == old(repr) && entries == Without(old(entries), key)
      ensures found <==> Find(old(entries), key) < |old(entries)|
    {
      hide SameKey, Distinct;
      var prev: Param? := null;
      var param := first;
      ghost var i := 0;
      while param != null
        invariant 0 <= i <= |nodes| && param == if i < |nodes| then nodes[i] else null
        invariant prev == if i == 0 then null else nodes[i - 1]
        invariant forall j | 0 <= j < i :: !SameKey(entries[j].key, key)
        invariant unchanged(repr)
        decreases |nodes| - i
      {
        if SameKey(param.entry.key, key) {
          FindUnique(entries, key, i);
          WithoutKeepsDistinct(entries, key);
          Unlink(i, prev, param);
          return true;
        }
        prev := param;
        param := param.next;
        i := i + 1;
      }
      FindUnique(entries, key, i);
      found := false;
    }

    static lemma OneOut<T>(s: seq<T>, i: nat, t: seq<T>)
      requires i < |s| && t == s[..i] + s[i + 1..]
      ensures |t| == |s| - 1
      ensures forall j | 0 <= j < i :: t[j] == s[j]
      ensures forall j | i <= j < |t| :: t[j] == s[j + 1]
      ensures (forall a, b | 0 <= a < b < |s| :: s[a] != s[b]) ==> forall a, b | 0 <= a < b < |t| :: t[a] != t[b]
    {
    }

    /** The node at i is cut out of the list and freed. */
    method Unlink(ghost i: nat, prev: Param?, param: Param)
      requires this in repr && Linked() && i < |nodes| && param == nodes[i]
      requires prev == if i == 0 then null else nodes[i - 1]
      modifies repr
      ensures this in repr && Linked() && repr == old(repr)
      ensures entries == old(entries[..i] + entries[i + 1..])
    {
      if prev != null {
        CutBehind(i, prev, param);
      } else {
        CutFirst(param);
      }
    }

    method CutBehind(ghost i: nat, prev: Param, param: Param)
      requires this in repr && Linked() && 0 < i < |nodes| && param == nodes[i] && prev == nodes[i - 1]
      modifies prev, param, this`nodes, this`entries
      ensures this in repr && Linked() && repr == old(repr)
      ensures entries == old(entries[..i] + entries[i + 1..])
    {
      prev.next := param.next;
      param.next := null;
      ghost var kept, left := nodes[..i] + nodes[i + 1..], entries[..i] + entries[i + 1..];
      OneOut(nodes, i, kept);
      OneOut(entries, i, left);
      nodes, entries := kept, left;
    }

    method CutFirst(param: Param)
      requires this in repr && Linked() && nodes != [] && param == nodes[0]
      modifies param, this`first, this`nodes, this`entries
      ensures this in repr && Linked() && repr == old(repr)
      ensures entries == old(entries[..0] + entries[1..])
    {
      first := param.next;
      param.next := null;
      ghost var kept, left := nodes[..0] + nodes[1..], entries[..0] + entries[1..];
      OneOut(nodes, 0, kept);
      OneOut(entries, 0, left);
      nodes, entries := kept, left;
    }

    /** istgt_iscsi_param_add: an equal key is replaced, and the new entry comes last. */
    method ParamAdd(key: string, val: string, list: Option<string>, kind: int)
      requires Valid()
      modifies repr
      ensures Valid() && fresh(repr - old(repr))
      ensures entries == Add(old(entries), Entry(key, val, list, kind))
    {
      hide SameKey, Distinct;
      var e := Entry(key, val, list, kind);
      AddKeepsDistinct(entries, e);
      var param := ParamFind(key);
      if param != null {
        var found := ParamDel(key);
      }
      param := new Param(e);
      Append(param);
    }

    /** The new node goes behind the last one. */
    method Append(param: Param)
      requires this in repr && Linked() && param !in repr && param.next == null
      modifies repr
      ensures this in repr && Linked() && repr == old(repr) + {param}
      ensures entries == old(entries) + [param.entry]
    {
      var last := first;
      if last != null {
        ghost var i := 0;
        while last.next != null
          invariant 0 <= i < |nodes| && last == nodes[i]
          invariant unchanged(repr)
          decreases |nodes| - i
        {
          last := last.next;
          i := i + 1;
        }
        last.next := param;
      } else {
        first := param;
      }
      nodes, entries, repr := nodes + [param], entries + [param.entry], repr + {param};
    }
  }

  // ---------------------------------------------------------------- reading a text

  datatype Pair = Pair(key: string, val: string)

  function Plain(p: Pair): Entry {
    Entry(p.key, p.val, None, 0)
  }

  /** One addition after the other. */
  function AddAll(es: seq<Entry>, ps: seq<Pair>): seq<Entry> {
    if ps == [] then es else Add(AddAll(es, ps[..|ps| - 1]), Plain(ps[|ps| - 1]))
  }

  /** The first place from p on that holds one of the characters in stops, or the end. */
  function Upto(d: string, p: nat, stops: string): (q: nat)
    requires p <= |d|
    ensures p <= q <= |d|
    ensures q < |d| ==> d[q] in stops
    ensures forall i | p <= i < q :: d[i] !in stops
    decreases |d| - p
  {
    if p == |d| || d[p] in stops then p else Upto(d, p + 1, stops)
  }

  function SkipNuls(d: string, p: nat): (q: nat)
    ensures p <= q
    decreases |d| - p
  {
    if p < |d| && d[p] == NUL then SkipNuls(d, p + 1) else p
  }

  datatype Text = Text(ok: bool, pairs: seq<Pair>)

  /**
   The pairs of a text from p on, up to the first fault, and whether there was
   none. The last value may end with the data.
   */
  function Read(d: string, p: nat): Text
    decreases |d| - p
  {
    if p >= |d| || d[p] == NUL then Text(true, [])
    else
      var q := Upto(d, p, ['=', NUL]);
      if q == |d| || d[q] == NUL || q - p > MAX_KEY_LEN then Text(false, [])
      else
        var e := Upto(d, q + 1, [NUL]);
        if e - (q + 1) > MAX_VAL_LEN then Text(false, [])
        else Prepend([Pair(d[p..q], d[q + 1..e])], Read(d, SkipNuls(d, e + 1)))
  }

  function Prepend(ps: seq<Pair>, t: Text): (r: Text)
    ensures t.pairs == [] ==> r.pairs == ps
  {
    Text(t.ok, ps + t.pairs)
  }

  lemma {:induction false} AddAllDistinct(es: seq<Entry>, ps: seq<Pair>)
    requires Distinct(es)
    ensures Distinct(AddAll(es, ps))
  {
    hide Distinct, Add;
    if ps != [] {
      AddAllDistinct(es, ps[..|ps| - 1]);
      AddKeepsDistinct(AddAll(es, ps[..|ps| - 1]), Plain(ps[|ps| - 1]));
    }
  }

  /** A key that comes several times ends up with its last value. */
  lemma {:induction false} LastValueWins(es: seq<Entry>, ps: seq<Pair>, i: nat, key: string)
    requires Distinct(es) && i < |ps| && SameKey(ps[i].key, key)
    requires forall j | i < j < |ps| :: !SameKey(ps[j].key, key)
    ensures Lookup(AddAll(es, ps), key) == Some(ps[i].val)
  {
    hide SameKey, Add, Lookup, Distinct;
    var before, last := AddAll(es, ps[..|ps| - 1]), ps[|ps| - 1];
    AddAllDistinct(es, ps[..|ps| - 1]);
    LookupAdd(before, Plain(last), key);
    if i < |ps| - 1 {
      LastValueWins(es, ps[..|ps| - 1], i, key);
    }
  }

  /** A key that does not come keeps what it had. */
  lemma {:induction false} OthersUntouched(es: seq<Entry>, ps: seq<Pair>, key: string)
    requires Distinct(es) && forall j | 0 <= j < |ps| :: !SameKey(ps[j].key, key)
    ensures Lookup(AddAll(es, ps), key) == Lookup(es, key)
  {
    hide SameKey, Add, Lookup, Distinct;
    if ps != [] {
      AddAllDistinct(es, ps[..|ps| - 1]);
      LookupAdd(AddAll(es, ps[..|ps| - 1]), Plain(ps[|ps| - 1]), key);
      OthersUntouched(es, ps[..|ps| - 1], key);
    }
  }

  /** The inner scanning loops. */
  method ScanTo(data: string, p: nat, stops: string) returns (q: nat)
    requires p <= |data|
    ensures q == Upto(data, p, stops)
  {
    q := p;
    while q < |data| && data[q] !in stops
      invariant p <= q <= |data| && Upto(data, p, stops) == Upto(data, q, stops)
    {
      q := q + 1;
    }
  }

  /** The loop over the NULs behind a value. */
  method PassNuls(data: string, start: nat) returns (p: nat)
    ensures p == SkipNuls(data, start)
  {
    p := start;
    while p < |data| && data[p] == NUL
      invariant start <= p && SkipNuls(data, p) == SkipNuls(data, start)
      decreases |data| - p
    {
      p := p + 1;
    }
  }

  /** What one round does, by the place of the '=' and the end of the value. */
  lemma ReadStep(d: string, p: nat, q: nat, e: nat)
    requires p < |d| && d[p] != NUL && q == Upto(d, p, ['=', NUL])
    requires q < |d| ==> e == Upto(d, q + 1, [NUL])
    ensures q == |d| || d[q] == NUL || q - p > MAX_KEY_LEN || e - q - 1 > MAX_VAL_LEN ==> Read(d, p) == Text(false, [])
    ensures q < |d| && d[q] != NUL && q - p <= MAX_KEY_LEN && e - q - 1 <= MAX_VAL_LEN ==>
      Read(d, p) == Prepend([Pair(d[p..q], d[q + 1..e])], Read(d, SkipNuls(d, e + 1)))
  {
    hide Upto, SkipNuls, Prepend;
  }

  /** One round of the parser: a pair and the NULs behind it, or a fault. */
  method ReadPair(data: string, start: nat) returns (ok: bool, key: string, val: string, next: nat)
    requires start < |data| && data[start] != NUL
    ensures !ok ==> Read(data, start) == Text(false, [])
    ensures ok ==> start < next && Read(data, start) == Prepend([Pair(key, val)], Read(data, next))
  {
    hide Read, Prepend, SkipNuls;
    ok, key, val, next := false, [], [], start;
    var q := ScanTo(data, start, ['=', NUL]);
    ReadStep(data, start, q, if q < |data| then Upto(data, q + 1, [NUL]) else q);
    if q >= |data| || data[q] == NUL {
      return;
    }
    if q - start > MAX_KEY_LEN {
      return;
    }
    key := data[start..q];
    var p := q + 1;
    q := ScanTo(data, p, [NUL]);
    if q - p > MAX_VAL_LEN {
      return;
    }
    val := data[p..q];
    next := PassNuls(data, q + 1);
    ok := true;
  }

  /** istgt_iscsi_parse_params: the pairs read before a fault stay added. */
  method ParseParams(params: ParamList, data: string) returns (ok: bool)
    requires params.Valid()
    modifies params.repr
    ensures params.Valid() && fresh(params.repr - old(params.repr))
    ensures ok == Read(data, 0).ok
    ensures params.entries == AddAll(old(params.entries), Read(data, 0).pairs)
  {
    hide Add, SameKey, ParamList.Linked, Distinct, Read;
    var p: nat := 0;
    ghost var done: seq<Pair> := [];
    PrependNone(Read(data, 0));
    while p < |data| && data[p] != NUL
      invariant params.Valid() && fresh(params.repr - old(params.repr))
      invariant params.entries == AddAll(old(params.entries), done)
      invariant Read(data, 0) == Prepend(done, Read(data, p))
      decreases |data| - p
    {
      var read, key, val, next := ReadPair(data, p);
      if !read {
        return false;
      }
      params.ParamAdd(key, val, None, 0);
      PrependMore(done, Pair(key, val), Read(data, next));
      done := done + [Pair(key, val)];
      p := next;
    }
    ReadEnd(data, p);
    ok := true;
  }

  lemma PrependMore(ps: seq<Pair>, p: Pair, t: Text)
    ensures Prepend(ps, Prepend([p], t)) == Prepend(ps + [p], t)
    ensures (ps + [p])[..|ps + [p]| - 1] == ps
  {
  }

  lemma PrependNone(t: Text)
    ensures Prepend([], t) == t
  {
  }

  lemma ReadEnd(data: string, p: nat)
    requires p >= |data| || data[p] == NUL
    ensures Read(data, p) == Text(true, [])
  {
  }

  // ---------------------------------------------------------------- writing a text

  function Compose(ps: seq<Pair>): string {
    if ps == [] then [] else ps[0].key + "=" + ps[0].val + [NUL] + Compose(ps[1..])
  }

  /**
   istgt_iscsi_append_text: key=value and a NUL, cut off where the space ends.
   The result counts what would have been written, so a later call can see it.
   */
  method AppendText(key: string, val: string, data: array<char>, allocLen: nat, dataLen: nat) returns (total: nat)
    requires allocLen <= data.Length
    modifies data
    ensures allocLen == 0 ==> total == 0 && data[..] == old(data[..])
    ensures 0 < allocLen < dataLen ==> total == allocLen && data[..] == old(data[..])[allocLen - 1 := NUL]
    ensures 0 < allocLen == dataLen ==> total == dataLen && data[..] == old(data[..])
    ensures dataLen < allocLen ==> total == dataLen + |key| + |val| + 2
    ensures dataLen < allocLen && total <= allocLen ==>
      data[..] == old(data[..])[..dataLen] + (key + "=" + val + [NUL]) + old(data[..])[total..]
    ensures dataLen < allocLen < total ==>
      data[..] == old(data[..])[..dataLen] + (key + "=" + val)[..allocLen - dataLen - 1] + [NUL]
                  + old(data[..])[allocLen..]
  {
    total := dataLen;
    if allocLen < 1 {
      return 0;
    }
    if total > allocLen {
      total := allocLen;
      data[total - 1] := NUL;
      return;
    }
    if allocLen - total < 1 {
      return;
    }
    var len := Print(data, total, allocLen - total, key + "=" + val);
    total := total + len + 1;
  }

  /** snprintf of a string: at most size octets with the NUL; the result is the length of the whole string. */
  method Print(data: array<char>, at: nat, size: nat, text: string) returns (len: nat)
    requires 0 < size && at + size <= data.Length
    modifies data
    ensures len == |text|
    ensures |text| < size ==> data[..] == old(data[..])[..at] + (text + [NUL]) + old(data[..])[at + |text| + 1..]
    ensures |text| >= size ==> data[..] == old(data[..])[..at] + text[..size - 1] + [NUL] + old(data[..])[at + size..]
  {
    var n := if |text| < size then |text| else size - 1;
    forall i | 0 <= i < n {
      data[at + i] := text[i];
    }
    data[at + n] := NUL;
    len := |text|;
  }

  /** Appending the pairs one after the other, with enough space, puts down their text. */
  method WriteAll(ps: seq<Pair>, data: array<char>, allocLen: nat) returns (total: nat)
    requires |Compose(ps)| <= allocLen <= data.Length
    modifies data
    ensures total == |Compose(ps)| && data[..total] == Compose(ps)
  {
    total := 0;
    var i := 0;
    assert ps[..0] == [];
    while i < |ps|
      invariant 0 <= i <= |ps| && total == |Compose(ps[..i])| <= allocLen && data[..total] == Compose(ps[..i])
    {
      hide Compose;
      ComposeMore(ps, i);
      total := AppendText(ps[i].key, ps[i].val, data, allocLen, total);
      i := i + 1;
    }
    assert ps[..i] == ps;
  }

  lemma {:induction false} ComposeConcat(a: seq<Pair>, b: seq<Pair>)
    ensures Compose(a + b) == Compose(a) + Compose(b)
  {
    if a == [] {
      assert a + b == b;
    } else {
      assert (a + b)[0] == a[0] && (a + b)[1..] == a[1..] + b;
      ComposeConcat(a[1..], b);
    }
  }

  lemma ComposeMore(ps: seq<Pair>, i: nat)
    requires i < |ps|
    ensures Compose(ps[..i + 1]) == Compose(ps[..i]) + (ps[i].key + "=" + ps[i].val + [NUL])
    ensures |Compose(ps[..i + 1])| <= |Compose(ps)|
  {
    assert ps[..i + 1] == ps[..i] + [ps[i]];
    ComposeConcat(ps[..i], [ps[i]]);
    assert ps == ps[..i + 1] + ps[i + 1..];
    ComposeConcat(ps[..i + 1], ps[i + 1..]);
    assert Compose([ps[i]]) == ps[i].key + "=" + ps[i].val + [NUL];
  }

  // ---------------------------------------------------------------- round trip

  /** A pair whose text can be told apart: no NUL in it and no '=' in the key. */
  predicate Clean(p: Pair) {
    '=' !in p.key && NUL !in p.key && NUL !in p.val
  }

  predicate Short(p: Pair) {
    |p.key| <= MAX_KEY_LEN && |p.val| <= MAX_VAL_LEN
  }

  lemma {:induction false} UptoIs(d: string, p: nat, q: nat, stops: string)
    requires p <= q < |d| && d[q] in stops
    requires forall i | p <= i < q :: d[i] !in stops
    ensures Upto(d, p, stops) == q
    decreases q - p
  {
    if p < q {
      UptoIs(d, p + 1, q, stops);
    }
  }

  /** Where the parts of a pair's text lie. */
  lemma Parts(d: string, p: nat, k: string, v: string, rest: string)
    requires p <= |d| && d[p..] == k + "=" + v + [NUL] + rest
    ensures |d| == p + |k| + |v| + 2 + |rest|
    ensures d[p..p + |k|] == k && d[p + |k|] == '='
    ensures d[p + |k| + 1..p + |k| + 1 + |v|] == v && d[p + |k| + 1 + |v|] == NUL
    ensures d[p + |k| + |v| + 2..] == rest
  {
    var t := d[p..];
    assert t[..|k|] == k && t[|k|] == '=' && t[|k| + 1..|k| + 1 + |v|] == v;
    assert t[|k| + 1 + |v|] == NUL && t[|k| + |v| + 2..] == rest;
    assert d[p + |k|] == t[|k|] && d[p + |k| + 1 + |v|] == t[|k| + 1 + |v|];
  }

  /** The scanner stops at the '=', at the NUL, and right behind it. */
  lemma Stops(d: string, p: nat, pair: Pair, q: nat, e: nat)
    requires Clean(pair) && q == p + |pair.key| && e == q + 1 + |pair.val| && e < |d|
    requires d[p..q] == pair.key && d[q] == '=' && d[q + 1..e] == pair.val && d[e] == NUL
    requires e + 1 < |d| ==> d[e + 1] != NUL
    ensures Upto(d, p, ['=', NUL]) == q && Upto(d, q + 1, [NUL]) == e && SkipNuls(d, e + 1) == e + 1 && d[p] != NUL
  {
    forall i | p <= i < q ensures d[i] !in ['=', NUL] {
      assert d[i] == d[p..q][i - p];
    }
    forall i | q + 1 <= i < e ensures d[i] !in [NUL] {
      assert d[i] == d[q + 1..e][i - q - 1];
    }
    UptoIs(d, p, q, ['=', NUL]);
    UptoIs(d, q + 1, e, [NUL]);
  }

  /** One pair at p is read as it was written, unless it is too long. */
  lemma ReadOne(d: string, p: nat, pair: Pair, rest: string)
    requires p <= |d| && d[p..] == pair.key + "=" + pair.val + [NUL] + rest && Clean(pair)
    requires rest != [] ==> rest[0] != NUL
    ensures |d| == p + |pair.key| + |pair.val| + 2 + |rest|
    ensures d[p + |pair.key| + |pair.val| + 2..] == rest
    ensures Short(pair) ==> Read(d, p) == Prepend([pair], Read(d, p + |pair.key| + |pair.val| + 2))
    ensures !Short(pair) ==> Read(d, p) == Text(false, [])
  {
    hide Read, Prepend, Upto, SkipNuls, Clean;
    Parts(d, p, pair.key, pair.val, rest);
    var q, e := p + |pair.key|, p + |pair.key| + 1 + |pair.val|;
    assert rest != [] ==> d[e + 1] == d[e + 1..][0];
    Stops(d, p, pair, q, e);
    ReadStep(d, p, q, e);
  }

  function Nuls(n: nat): (s: string)
    ensures |s| == n && forall i | 0 <= i < n :: s[i] == NUL
  {
    seq(n, _ => NUL)
  }

  lemma {:induction false} UptoEnd(d: string, p: nat, stops: string)
    requires p <= |d| && forall i | p <= i < |d| :: d[i] !in stops
    ensures Upto(d, p, stops) == |d|
    decreases |d| - p
  {
    if p < |d| {
      UptoEnd(d, p + 1, stops);
    }
  }

  lemma {:induction false} SkipIs(d: string, p: nat, q: nat)
    requires p <= q <= |d| && (forall i | p <= i < q :: d[i] == NUL) && (q < |d| ==> d[q] != NUL)
    ensures SkipNuls(d, p) == q
    decreases q - p
  {
    if p < q {
      SkipIs(d, p + 1, q);
    }
  }

  /** The parts of a text that starts with a pair, behind which come any number of NULs. */
  lemma Places(d: string, p: nat, k: string, v: string, n: nat, rest: string, q: nat, e: nat)
    requires p <= |d| && d[p..] == k + "=" + v + Nuls(n) + rest && q == p + |k| && e == q + 1 + |v|
    ensures |d| == e + n + |rest| && d[p..q] == k && d[q] == '=' && d[q + 1..e] == v
    ensures forall i | 0 <= i < |k| :: d[p + i] == k[i]
    ensures forall i | 0 <= i < |v| :: d[q + 1 + i] == v[i]
    ensures forall i | e <= i < e + n :: d[i] == NUL
    ensures rest != [] ==> d[e + n] == rest[0]
  {
    var t := d[p..];
    assert forall i | 0 <= i < |t| :: d[p + i] == t[i];
    assert forall i | 0 <= i < |k| :: t[i] == k[i];
    assert forall i | 0 <= i < |v| :: t[|k| + 1 + i] == v[i];
    assert t[|k|] == '=';
    forall i | e <= i < e + n
      ensures d[i] == NUL
    {
      assert d[p + (i - p)] == t[i - p] == Nuls(n)[i - e];
    }
    assert rest != [] ==> t[|k| + 1 + |v| + n] == rest[0];
  }

  /**
   Any text that starts with a pair, with one or more NULs behind it or at the end of
   the data: the pair is taken and the NULs are passed over, unless it is too long.
   */
  lemma ReadAny(d: string, p: nat, pair: Pair, n: nat, rest: string)
    requires p <= |d| && d[p..] == pair.key + "=" + pair.val + Nuls(n) + rest && Clean(pair)
    requires rest != [] ==> n > 0 && rest[0] != NUL
    ensures Read(d, p) == if |pair.key| > 64 || |pair.val| > 8192 then Text(false, [])
                          else Text(Read(d, |d| - |rest|).ok, [pair] + Read(d, |d| - |rest|).pairs)
  {
    hide Read, Upto, SkipNuls;
    var q, e := p + |pair.key|, p + |pair.key| + 1 + |pair.val|;
    Places(d, p, pair.key, pair.val, n, rest, q, e);
    forall i | p <= i < q
      ensures d[i] !in ['=', NUL]
    {
      assert d[p + (i - p)] == pair.key[i - p];
    }
    forall i | q + 1 <= i < e
      ensures d[i] !in [NUL]
    {
      assert d[q + 1 + (i - q - 1)] == pair.val[i - q - 1];
    }
    UptoIs(d, p, q, ['=', NUL]);
    if n == 0 {
      UptoEnd(d, q + 1, [NUL]);
      PastEnd(d);
    } else {
      UptoIs(d, q + 1, e, [NUL]);
      SkipIs(d, e + 1, e + n);
    }
    ReadStep(d, p, q, e);
  }

  lemma PastEnd(d: string)
    ensures SkipNuls(d, |d| + 1) == |d| + 1 && Read(d, |d| + 1) == Read(d, |d|) == Text(true, [])
  {
  }

  /** A text that starts with characters other than '=' up to a NUL or its end is a fault. */
  lemma ReadFault(d: string, p: nat, key: string, rest: string)
    requires p <= |d| && d[p..] == key + rest && key != [] && '=' !in key && NUL !in key
    requires rest != [] ==> rest[0] == NUL
    ensures Read(d, p) == Text(false, [])
  {
    hide Read, Upto;
    var q := p + |key|;
    forall i | p <= i < q
      ensures d[i] !in ['=', NUL]
    {
      assert d[i] == d[p..][i - p] == key[i - p];
    }
    if rest == [] {
      UptoEnd(d, p, ['=', NUL]);
    } else {
      assert d[q] == d[p..][|key|] == rest[0];
      UptoIs(d, p, q, ['=', NUL]);
    }
    ReadStep(d, p, q, if q < |d| then Upto(d, q + 1, [NUL]) else q);
  }

  predicate AllShort(ps: seq<Pair>) {
    forall i | 0 <= i < |ps| :: Short(ps[i])
  }

  /** What was written is read back pair by pair, exactly when every pair is short enough. */
  lemma {:induction false} ReadComposed(d: string, p: nat, ps: seq<Pair>)
    requires p <= |d| && d[p..] == Compose(ps) && forall i | 0 <= i < |ps| :: Clean(ps[i])
    ensures Read(d, p).ok <==> AllShort(ps)
    ensures AllShort(ps) ==> Read(d, p).pairs == ps
    decreases |ps|
  {
    hide Clean, Read, Prepend, AllShort, Short;
    if ps == [] {
      NoneShort(ps);
      ReadEnd(d, p);
    } else {
      var next := p + |ps[0].key| + |ps[0].val| + 2;
      var one, rest := ps[0], ps[1..];
      FirstCharOf(rest);
      ReadOne(d, p, one, Compose(rest));
      ReadComposed(d, next, rest);
      ShortSplit(ps);
      PrependOne(one, Read(d, next));
    }
  }

  lemma NoneShort(ps: seq<Pair>)
    requires ps == []
    ensures AllShort(ps)
  {
  }

  lemma ShortSplit(ps: seq<Pair>)
    requires ps != []
    ensures AllShort(ps) <==> Short(ps[0]) && AllShort(ps[1..])
    ensures ps == [ps[0]] + ps[1..]
  {
    hide Short;
    assert forall i | 1 <= i < |ps| :: ps[i] == ps[1..][i - 1];
  }

  lemma PrependOne(p: Pair, t: Text)
    ensures Prepend([p], t).ok == t.ok && Prepend([p], t).pairs == [p] + t.pairs
  {
  }

  lemma FirstCharOf(ps: seq<Pair>)
    requires forall i | 0 <= i < |ps| :: Clean(ps[i])
    ensures Compose(ps) != [] ==> Compose(ps)[0] != NUL
  {
    if ps != [] {
      FirstChar(ps[0], Compose(ps[1..]));
    }
  }

  lemma FirstChar(p: Pair, rest: string)
    requires Clean(p)
    ensures (p.key + "=" + p.val + [NUL] + rest)[0] != NUL
  {
  }

  function Plains(ps: seq<Pair>): (es: seq<Entry>)
    ensures |es| == |ps|
  {
    seq(|ps|, i requires 0 <= i < |ps| => Plain(ps[i]))
  }

  ghost predicate KeysDiffer(ps: seq<Pair>) {
    forall i, j | 0 <= i < j < |ps| :: !SameKey(ps[i].key, ps[j].key)
  }

  /** Additions of different keys only append. */
  lemma {:induction false} AddAllDiffer(ps: seq<Pair>)
    requires KeysDiffer(ps)
    ensures AddAll([], ps) == Plains(ps)
  {
    hide SameKey, Find;
    if ps != [] {
      var before, last := ps[..|ps| - 1], ps[|ps| - 1];
      AddAllDiffer(before);
      var i := Find(Plains(before), last.key);
      assert forall k | 0 <= k < |before| :: !SameKey(Plains(before)[k].key, last.key);
      assert Plains(ps) == Plains(before) + [Plain(last)];
    }
  }

  /** Equal keys leave fewer entries than pairs. */
  lemma {:induction false} AddAllClash(ps: seq<Pair>)
    ensures |AddAll([], ps)| <= |ps|
    ensures !KeysDiffer(ps) ==> |AddAll([], ps)| < |ps|
  {
    hide SameKey, Find;
    if ps != [] {
      var before, last := ps[..|ps| - 1], ps[|ps| - 1];
      AddAllClash(before);
      if KeysDiffer(before) && !KeysDiffer(ps) {
        AddAllDiffer(before);
        var i, j :| 0 <= i < j < |ps| && SameKey(ps[i].key, ps[j].key);
        assert j == |ps| - 1;
        assert SameKey(Plains(before)[i].key, last.key);
      }
    }
  }

  /**
   The written text gives back the same list, exactly when every pair is short
   enough and no two keys are equal under the comparison of the list.
   */
  lemma RoundTripIff(ps: seq<Pair>)
    requires forall i | 0 <= i < |ps| :: Clean(ps[i])
    ensures Read(Compose(ps), 0).ok && AddAll([], Read(Compose(ps), 0).pairs) == Plains(ps)
            <==> AllShort(ps) && KeysDiffer(ps)
  {
    hide Read, Compose, AddAll, Clean, KeysDiffer, AllShort;
    var d := Compose(ps);
    assert d[0..] == d;
    ReadComposed(d, 0, ps);
    if KeysDiffer(ps) {
      AddAllDiffer(ps);
    } else {
      AddAllClash(ps);
    }
  }
}
