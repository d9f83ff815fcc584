/**
 The field-level merges an offline edit runs on the stored document: SNAT rules
 keyed by external port and DNS records keyed by domain, both kept in a JSON
 array. Each merge is shown to be insertion into, or removal from, the finite
 map a reader sees when the first entry with a key counts.
 */
module FieldMerge {
  import opened Common

  /**
   One array element. `key` is the eport or domain, None when it is not a string
   (or the element is no object at all); `index` is the SNAT position text.
   */
  datatype Item = Item(key: Option<string>, payload: string, index: Option<nat>)

  ghost predicate Matchable(items: seq<Item>) {
    forall i :: 0 <= i < |items| ==> items[i].key.Some?
  }

  /** The first element with this key. */
  ghost function Find(items: seq<Item>, k: string): Option<Item> {
    if items == [] then None
    else if items[0].key == Some(k) then Some(items[0])
    else Find(items[1..], k)
  }

  /** Replace the first element with this key, or append. */
  ghost function Upsert(items: seq<Item>, k: string, x: Item): seq<Item> {
    if items == [] then [x]
    else if items[0].key == Some(k) then [x] + items[1..]
    else [items[0]] + Upsert(items[1..], k, x)
  }

  /** Drop every element with this key. */
  ghost function Without(items: seq<Item>, k: string): seq<Item> {
    if items == [] then []
    else if items[0].key == Some(k) then Without(items[1..], k)
    else [items[0]] + Without(items[1..], k)
  }

  /** Positions are renumbered from `from`. */
  ghost function Renumbered(items: seq<Item>): (r: seq<Item>)
    ensures |r| == |items|
    ensures forall i :: 0 <= i < |items| ==> r[i] == items[i].(index := Some(i))
  {
    seq(|items|, i requires 0 <= i < |items| => items[i].(index := Some(i)))
  }

  ghost predicate UniqueKeys(items: seq<Item>) {
    forall i, j :: 0 <= i < j < |items| ==> items[i].key != items[j].key
  }

  /** The keys in order, which is all that "the others keep their order" can mean. */
  ghost function KeysOf(items: seq<Item>): seq<Option<string>> {
    seq(|items|, i requires 0 <= i < |items| => items[i].key)
  }

  // ---- refinement of a finite map ----

  /** Upsert is map insertion, whether or not keys repeat. */
  lemma {:induction false} UpsertIsInsert(items: seq<Item>, k: string, x: Item, q: string)
    requires x.key == Some(k)
    ensures Find(Upsert(items, k, x), q) == if q == k then Some(x) else Find(items, q)
  {
    if items == [] {
    } else if items[0].key == Some(k) {
      assert ([x] + items[1..])[1..] == items[1..];
    } else {
      UpsertIsInsert(items[1..], k, x, q);
      var r := Upsert(items[1..], k, x);
      assert ([items[0]] + r)[1..] == r;
    }
  }

  /** Without is map removal. */
  lemma {:induction false} WithoutIsRemove(items: seq<Item>, k: string, q: string)
    ensures Find(Without(items, k), q) == if q == k then None else Find(items, q)
  {
    if items == [] {
    } else {
      WithoutIsRemove(items[1..], k, q);
      var r := Without(items[1..], k);
      assert ([items[0]] + r)[1..] == r;
    }
  }

  /** An upsert keeps every position's key, growing by one only for a new key. */
  lemma {:induction false} UpsertKeepsOrder(items: seq<Item>, k: string, x: Item)
    requires x.key == Some(k)
    ensures KeysOf(Upsert(items, k, x)) ==
            KeysOf(items) + if Find(items, k).None? then [Some(k)] else []
    ensures forall i :: 0 <= i < |items| && items[i].key != Some(k) ==>
      i < |Upsert(items, k, x)| && Upsert(items, k, x)[i] == items[i]
  {
    if items == [] {
    } else if items[0].key == Some(k) {
      assert KeysOf([x] + items[1..]) == KeysOf(items);
    } else {
      UpsertKeepsOrder(items[1..], k, x);
      var r := Upsert(items[1..], k, x);
      assert KeysOf([items[0]] + r) == [items[0].key] + KeysOf(r);
      assert KeysOf(items) == [items[0].key] + KeysOf(items[1..]);
    }
  }

  lemma {:induction false} FindNone(items: seq<Item>, k: string)
    ensures Find(items, k).None? <==> forall i :: 0 <= i < |items| ==> items[i].key != Some(k)
  {
    if items == [] {
    } else {
      FindNone(items[1..], k);
      assert forall i :: 1 <= i < |items| ==> items[i] == items[1..][i - 1];
    }
  }

  /** Keys that were unique stay unique. */
  lemma UpsertKeepsUnique(items: seq<Item>, k: string, x: Item)
    requires x.key == Some(k) && UniqueKeys(items)
    ensures UniqueKeys(Upsert(items, k, x))
  {
    UpsertKeepsOrder(items, k, x);
    FindNone(items, k);
    var r := Upsert(items, k, x);
    assert |KeysOf(r)| == |r| && |KeysOf(items)| == |items|;
    forall i, j | 0 <= i < j < |r| ensures r[i].key != r[j].key {
      assert r[i].key == KeysOf(r)[i] && r[j].key == KeysOf(r)[j];
      assert i < |items| ==> KeysOf(items)[i] == items[i].key;
    }
  }

  /** Removal keeps exactly the other elements. */
  lemma {:induction false} WithoutKeepsRest(items: seq<Item>, k: string, x: Item)
    ensures x in Without(items, k) <==> x in items && x.key != Some(k)
  {
    if items == [] {
    } else {
      WithoutKeepsRest(items[1..], k, x);
      assert items == [items[0]] + items[1..];
    }
  }

  lemma {:induction false} WithoutKeepsUnique(items: seq<Item>, k: string)
    requires UniqueKeys(items)
    ensures UniqueKeys(Without(items, k))
  {
    if items == [] {
    } else {
      WithoutKeepsUnique(items[1..], k);
      var r := Without(items[1..], k);
      forall j | 0 <= j < |r| ensures items[0].key != r[j].key {
        WithoutKeepsRest(items[1..], k, r[j]);
        var m :| 0 <= m < |items[1..]| && items[1..][m] == r[j];
        assert items[m + 1] == r[j];
      }
    }
  }

  /** Removing what was just inserted under a new key gives the original back. */
  lemma {:induction false} RemoveUndoesInsert(items: seq<Item>, k: string, x: Item)
    requires x.key == Some(k) && Find(items, k).None?
    ensures Without(Upsert(items, k, x), k) == items
  {
    if items == [] {
      assert [x][1..] == [];
    } else {
      RemoveUndoesInsert(items[1..], k, x);
      var r := Upsert(items[1..], k, x);
      assert ([items[0]] + r)[1..] == r;
    }
  }

  // ---- the merges ----

  /** The two merges of an entry: whole documents are Ok(new array) or Err, with nothing in between. */
  datatype Result = Ok(items: seq<Item>) | Err

  /** SNAPSHOT_FIELD_KIND_SNAT_UPSERT over the port-mapping array. */
  method SnatUpsert(pms: seq<Item>, entry: Item) returns (r: Result)
    ensures r.Ok? <==> entry.key.Some? && Matchable(pms)
    ensures r.Ok? ==> r.items == Renumbered(Upsert(pms, entry.key.value, entry))
  {
    if entry.key.None? { return Err; }
    var eport := entry.key.value;
    var i := 0;
    while i < |pms|
      invariant 0 <= i <= |pms|
      invariant forall j :: 0 <= j < i ==> pms[j].key.Some?
    {
      if pms[i].key.None? { return Err; }
      i := i + 1;
    }
    var merged := ReplaceFirstOrAppend(pms, eport, entry);
    merged := Renumber(merged);
    r := Ok(merged);
  }

  /** The update loop shared by the SNAT and the DNS upsert. */
  method ReplaceFirstOrAppend(items: seq<Item>, k: string, x: Item) returns (out: seq<Item>)
    ensures out == Upsert(items, k, x)
  {
    out := items;
    var updated, i := false, 0;
    while i < |out| && !updated
      invariant 0 <= i <= |items|
      invariant !updated ==> out == items && Upsert(items, k, x) == items[..i] + Upsert(items[i..], k, x)
      invariant updated ==> out == Upsert(items, k, x)
      decreases |items| - i, !updated
    {
      assert items[i..][0] == items[i] && items[i..][1..] == items[i + 1..];
      if out[i].key == Some(k) {
        out := out[i := x];
        updated := true;
        assert out == items[..i] + ([x] + items[i + 1..]);
      } else {
        assert items[..i] + ([items[i]] + Upsert(items[i + 1..], k, x))
            == items[..i + 1] + Upsert(items[i + 1..], k, x);
        i := i + 1;
      }
    }
    if !updated {
      assert items[i..] == [] && items[..i] == items;
      out := out + [x];
    }
  }

  method Renumber(items: seq<Item>) returns (out: seq<Item>)
    ensures out == Renumbered(items)
  {
    out := items;
    var i := 0;
    while i < |out|
      invariant 0 <= i <= |out| == |items|
      invariant forall j :: 0 <= j < |items| ==>
        out[j] == if j < i then items[j].(index := Some(j)) else items[j]
    {
      out := out[i := out[i].(index := Some(i))];
      i := i + 1;
    }
  }

  /** The filter loop shared by SNAT removal and DNS deletion. */
  method Filter(items: seq<Item>, k: string) returns (out: seq<Item>)
    ensures out == Without(items, k)
  {
    out := [];
    var i := 0;
    while i < |items|
      invariant 0 <= i <= |items|
      invariant Without(items, k) == out + Without(items[i..], k)
    {
      assert items[i..][0] == items[i] && items[i..][1..] == items[i + 1..];
      if items[i].key != Some(k) {
        out := out + [items[i]];
      }
      i := i + 1;
    }
    assert items[i..] == [];
  }

  /** SNAPSHOT_FIELD_KIND_SNAT_REMOVE: removing an absent port succeeds and only renumbers. */
  method SnatRemove(pms: seq<Item>, eport: string) returns (r: Result)
    ensures r.Ok? <==> Matchable(pms)
    ensures r.Ok? ==> r.items == Renumbered(Without(pms, eport))
  {
    var i := 0;
    while i < |pms|
      invariant 0 <= i <= |pms|
      invariant forall j :: 0 <= j < i ==> pms[j].key.Some?
    {
      if pms[i].key.None? { return Err; }
      i := i + 1;
    }
    var kept := Filter(pms, eport);
    kept := Renumber(kept);
    r := Ok(kept);
  }

  /**
   SNAPSHOT_FIELD_KIND_DNS_ADD and _DNS_DEL over the records array. The records
   of a key that etcd does not have read as an empty array, but there is nothing
   to delete from then.
   */
  method DnsMerge(records: Option<seq<Item>>, add: bool, record: Item, domain: string) returns (r: Result)
    ensures var arr := if records.Some? then records.value else [];
            && (r.Ok? <==> Matchable(arr) && (if add then record.key.Some? else records.Some?))
            && (r.Ok? && add ==> r.items == Upsert(arr, record.key.value, record))
            && (r.Ok? && !add ==> r.items == Without(arr, domain))
  {
    var arr := if records.Some? then records.value else [];
    var i := 0;
    while i < |arr|
      invariant 0 <= i <= |arr|
      invariant forall j :: 0 <= j < i ==> arr[j].key.Some?
    {
      if arr[i].key.None? { return Err; }
      i := i + 1;
    }
    if add {
      if record.key.None? { return Err; }
      var out := ReplaceFirstOrAppend(arr, record.key.value, record);
      r := Ok(out);
    } else {
      if records.None? { return Err; }
      var out := Filter(arr, domain);
      r := Ok(out);
    }
  }

  // ---- what a reader of the merged document sees ----

  /** The rule or record in force for a key. */
  ghost function InForce(items: seq<Item>, q: string): Option<string> {
    var x := Find(items, q);
    if x.Some? then Some(x.value.payload) else None
  }

  /** Renumbering changes positions only. */
  lemma {:induction false} RenumberKeepsMap(items: seq<Item>, n: nat, q: string)
    requires n <= |items|
    ensures InForce(Renumbered(items)[n..], q) == InForce(items[n..], q)
    decreases |items| - n
  {
    if n == |items| {
    } else {
      RenumberKeepsMap(items, n + 1, q);
      assert items[n..][1..] == items[n + 1..];
      assert Renumbered(items)[n..][1..] == Renumbered(items)[n + 1..];
    }
  }

  /** After a SNAT upsert the given port follows the new rule and every other port its old one. */
  lemma SnatUpsertIsInsert(pms: seq<Item>, eport: string, entry: Item, q: string)
    requires entry.key == Some(eport)
    ensures InForce(Renumbered(Upsert(pms, eport, entry)), q) ==
            if q == eport then Some(entry.payload) else InForce(pms, q)
  {
    var r := Upsert(pms, eport, entry);
    UpsertIsInsert(pms, eport, entry, q);
    RenumberKeepsMap(r, 0, q);
    assert r[0..] == r && Renumbered(r)[0..] == Renumbered(r);
  }

  /** After a SNAT removal the given port has no rule and every other port its old one. */
  lemma SnatRemoveIsRemove(pms: seq<Item>, eport: string, q: string)
    ensures InForce(Renumbered(Without(pms, eport)), q) ==
            if q == eport then None else InForce(pms, q)
  {
    var r := Without(pms, eport);
    WithoutIsRemove(pms, eport, q);
    RenumberKeepsMap(r, 0, q);
    assert r[0..] == r && Renumbered(r)[0..] == Renumbered(r);
  }
}
