/**
 * The `strings` dictionary of app.js and the logic of the handlers that
 * change or read it one key at a time: POST /strings, GET /strings/:text
 * and DELETE /strings/:text. Keys are the exact string values; the order
 * of insertion is kept because `Object.values` lists the records in it.
 */
module StringStore {
  import opened Base
  import opened Analyzer

  /** A stored string: the object POST /strings builds and returns. */
  datatype Record = Record(id: string, value: string, properties: Properties, createdAt: string)

  /** `req.body.value`, whatever JSON the client sent (or nothing). */
  datatype BodyValue =
    | Missing
    | Null
    | Bool(b: bool)
    | Number(x: real)
    | NotANumber
    | Text(s: string)
    | Composite  // an object or array: always truthy, never a string

  /** The values JavaScript treats as false: `!text` holds of these. */
  predicate Falsy(v: BodyValue) {
    v.Missing? || v.Null? || v == Bool(false) || v == Number(0.0) || v.NotANumber? || v == Text("")
  }

  /** The rejections of POST /strings: "Need text", "Must be string", "Already exists". */
  datatype InsertError = NeedText | MustBeString | AlreadyExists

  /** Each key of `keys` once at most. */
  predicate Distinct(keys: seq<string>) {
    forall i, j :: 0 <= i < j < |keys| ==> keys[i] != keys[j]
  }

  lemma DistinctAppend(keys: seq<string>, k: string)
    requires Distinct(keys) && k !in keys
    ensures Distinct(keys + [k])
  {
    var r := keys + [k];
    forall i, j | 0 <= i < j < |r|
      ensures r[i] != r[j]
    {
      if j == |keys| {
        assert r[i] == keys[i];
      }
    }
  }

  lemma DistinctCons(x: string, keys: seq<string>)
    requires Distinct(keys) && x !in keys
    ensures Distinct([x] + keys)
  {
    var r := [x] + keys;
    forall i, j | 0 <= i < j < |r|
      ensures r[i] != r[j]
    {
      assert r[j] == keys[j - 1];
      if i > 0 {
        assert r[i] == keys[i - 1];
      }
    }
  }

  /** `keys` with every occurrence of `k` taken out, the rest in order. */
  function Without(keys: seq<string>, k: string): (r: seq<string>)
    ensures forall x :: x in r <==> x in keys && x != k
    ensures Distinct(keys) ==> Distinct(r)
    ensures k !in keys ==> r == keys
  {
    if keys == [] then []
    else
      var rest := Without(keys[1..], k);
      if keys[0] == k then rest
      else
        assert Distinct(keys) ==> Distinct(keys[1..]) && keys[0] !in keys[1..];
        if Distinct(keys) then DistinctCons(keys[0], rest); [keys[0]] + rest
        else [keys[0]] + rest
  }

  /** Removing a key from a concatenation removes it from each part, in order. */
  lemma {:induction false} WithoutAppend(a: seq<string>, b: seq<string>, k: string)
    ensures Without(a + b, k) == Without(a, k) + Without(b, k)
  {
    if a == [] {
      assert a + b == b;
    } else {
      assert (a + b)[1..] == a[1..] + b;
      WithoutAppend(a[1..], b, k);
    }
  }

  /** The key at position `i` of a list of distinct keys occurs nowhere else. */
  lemma {:induction false} DistinctAt(keys: seq<string>, i: nat)
    requires Distinct(keys) && i < |keys|
    ensures keys[i] !in keys[..i] && keys[i] !in keys[i + 1..]
  {
    forall j | 0 <= j < |keys| && j != i
      ensures keys[j] != keys[i]
    {
      if j < i {
        assert keys[j] != keys[i];
      } else {
        assert keys[i] != keys[j];
      }
    }
  }

  /** Removing a key that occurs once, between `a` and `b`, leaves `a` then `b`. */
  lemma {:induction false} WithoutBetween(a: seq<string>, k: string, b: seq<string>)
    requires k !in a && k !in b
    ensures Without(a + [k] + b, k) == a + b
  {
    var ak := a + [k];
    WithoutAppend(ak, b, k);
    WithoutAppend(a, [k], k);
    assert [k][1..] == [];
    calc {
      Without(ak + b, k);
      Without(ak, k) + Without(b, k);
      Without(a, k) + Without([k], k) + Without(b, k);
      a + [] + b;
      { assert a + [] == a; }
      a + b;
    }
  }

  /** In a list of distinct keys, removing the key at `i` closes the gap and keeps the rest in order. */
  lemma {:induction false} WithoutAt(keys: seq<string>, i: nat, k: string)
    requires Distinct(keys) && i < |keys| && keys[i] == k
    ensures Without(keys, k) == keys[..i] + keys[i + 1..]
  {
    DistinctAt(keys, i);
    assert keys == keys[..i] + [k] + keys[i + 1..];
    WithoutBetween(keys[..i], k, keys[i + 1..]);
  }

  lemma {:induction false} DistinctCardinality(keys: seq<string>)
    requires Distinct(keys)
    ensures |set k | k in keys| == |keys|
  {
    if keys != [] {
      DistinctCardinality(keys[1..]);
      assert (set k | k in keys) == (set k | k in keys[1..]) + {keys[0]};
      assert keys[0] !in keys[1..];
    }
  }

  /** The records of `entries` listed in the order of `keys`. */
  function InOrder(entries: map<string, Record>, keys: seq<string>): (r: seq<Record>)
    requires forall k :: k in keys ==> k in entries
    ensures |r| == |keys|
    ensures forall i :: 0 <= i < |keys| ==> r[i] == entries[keys[i]]
  {
    if keys == [] then [] else [entries[keys[0]]] + InOrder(entries, keys[1..])
  }

  /** `rec` is the record POST /strings builds for the non-empty string `k`. */
  ghost predicate Built(sha256: string -> string, k: string, rec: Record) {
    && k != ""
    && rec.value == k
    && rec.id == sha256(k)
    && rec.properties == Analysis(k, sha256)
  }

  /** Every record of `entries` is the one built for its key. */
  ghost predicate AllBuilt(sha256: string -> string, entries: map<string, Record>) {
    forall k {:trigger Built(sha256, k, entries[k])} :: k in entries ==> Built(sha256, k, entries[k])
  }

  lemma AllBuiltAdd(sha256: string -> string, entries: map<string, Record>, k: string, rec: Record)
    requires AllBuilt(sha256, entries) && Built(sha256, k, rec)
    ensures AllBuilt(sha256, entries[k := rec])
  {
    var m := entries[k := rec];
    forall x | x in m
      ensures Built(sha256, x, m[x])
    {
      if x != k {
        assert Built(sha256, x, entries[x]);
      } else {
        assert m[x] == rec;
      }
    }
  }

  lemma AllBuiltRemove(sha256: string -> string, entries: map<string, Record>, k: string)
    requires AllBuilt(sha256, entries)
    ensures AllBuilt(sha256, entries - {k})
  {
    var m := entries - {k};
    forall x | x in m
      ensures Built(sha256, x, m[x])
    {
      assert Built(sha256, x, entries[x]);
    }
  }

  /** Adding a key to the map and to the end of the list keeps the two in step. */
  lemma SameKeysAdd(entries: map<string, Record>, keys: seq<string>, k: string, rec: Record)
    requires forall x :: x in entries <==> x in keys
    ensures forall x :: x in entries[k := rec] <==> x in keys + [k]
  {
    forall x
      ensures x in entries[k := rec] <==> x in keys + [k]
    {
      assert x in keys + [k] <==> x in keys || x == k;
    }
  }

  /** Listing every key once lists every record once. */
  lemma InOrderValues(entries: map<string, Record>, keys: seq<string>)
    requires Distinct(keys) && forall k :: k in entries <==> k in keys
    ensures |keys| == |entries|
    ensures forall rec :: rec in InOrder(entries, keys) <==> rec in entries.Values
  {
    DistinctCardinality(keys);
    assert entries.Keys == set k | k in keys;
    var r := InOrder(entries, keys);
    forall rec | rec in entries.Values
      ensures rec in r
    {
      var k :| k in entries && entries[k] == rec;
      var i :| 0 <= i < |keys| && keys[i] == k;
      assert r[i] == rec;
    }
  }

  class Store {
    /** The digest used for ids, SHA-256 rendered in hex; not modelled. */
    const sha256: string -> string
    /** `strings`: exact value to record. */
    var entries: map<string, Record>
    /** The keys of `entries` in insertion order. */
    var order: seq<string>

    /**
     * Every stored record is the one POST /strings built for its key, and
     * `order` lists each key exactly once.
     */
    ghost predicate Valid()
      reads this
    {
      && Distinct(order)
      && (forall k :: k in entries <==> k in order)
      && AllBuilt(sha256, entries)
    }

    constructor (sha256: string -> string)
      ensures Valid()
      ensures this.sha256 == sha256 && entries == map[] && order == []
    {
      this.sha256 := sha256;
      entries := map[];
      order := [];
    }

    /** `Object.values(strings)`: every record, oldest first. */
    function Records(): (r: seq<Record>)
      reads this
      requires Valid()
      ensures |r| == |order| == |entries|
      ensures forall i :: 0 <= i < |r| ==> r[i] == entries[order[i]]
      ensures forall rec :: rec in r <==> rec in entries.Values
    {
      InOrderValues(entries, order);
      InOrder(entries, order)
    }

    /** GET /strings/:text: the record stored under exactly `text`, or not found. */
    function Get(text: string): (r: Option<Record>)
      reads this
      requires Valid()
      ensures r.Some? <==> text in entries
      ensures r.Some? ==> r.value.value == text && r.value.id == sha256(text)
      ensures r.Some? ==> r.value.properties == Analysis(text, sha256)
      ensures r.Some? ==> r.value == entries[text]
    {
      if text in entries then
        assert Built(sha256, text, entries[text]);
        Some(entries[text])
      else None
    }

    /**
     * POST /strings. The checks run in a fixed order: a falsy value (the empty
     * string among them) is "Need text", anything else that is not a string
     * is "Must be string", a string already stored is "Already exists". A
     * rejected request changes nothing; an accepted one adds exactly the new
     * key, last in order. `now` is the creation time, taken as given.
     */
    method Insert(body: BodyValue, now: string) returns (r: Result<Record, InsertError>)
      requires Valid()
      modifies this
      ensures Valid()
      ensures r == Failure(NeedText) <==> Falsy(body)
      ensures r == Failure(MustBeString) <==> !Falsy(body) && !body.Text?
      ensures r == Failure(AlreadyExists) <==> body.Text? && body.s != "" && body.s in old(entries)
      ensures r.Failure? ==> entries == old(entries) && order == old(order)
      ensures r.Success? ==>
        && body.Text?
        && r.value == Record(sha256(body.s), body.s, Analysis(body.s, sha256), now)
        && r.value.id == r.value.properties.sha256Hash
        && entries == old(entries)[body.s := r.value]
        && order == old(order) + [body.s]
        && Get(body.s) == Some(r.value)
    {
      if Falsy(body) {
        return Failure(NeedText);
      }
      if !body.Text? {
        return Failure(MustBeString);
      }
      var text := body.s;
      if text in entries {
        return Failure(AlreadyExists);
      }
      var properties := AnalyzeString(text, sha256);
      var data := Record(properties.sha256Hash, text, properties, now);
      Put(text, data);
      r := Success(data);
    }

    /** `strings[text] = data`, for a key not yet present. */
    method Put(text: string, data: Record)
      requires Valid() && text !in entries && Built(sha256, text, data)
      modifies this
      ensures Valid()
      ensures entries == old(entries)[text := data] && order == old(order) + [text]
    {
      DistinctAppend(order, text);
      SameKeysAdd(entries, order, text, data);
      AllBuiltAdd(sha256, entries, text, data);
      order := order + [text];
      entries := entries[text := data];
    }

    /**
     * DELETE /strings/:text: removes exactly that key, or reports not found
     * (`false`) and changes nothing.
     */
    method Delete(text: string) returns (found: bool)
      requires Valid()
      modifies this
      ensures Valid()
      ensures found == (text in old(entries))
      ensures entries == old(entries) - {text}
      ensures order == Without(old(order), text)
      ensures Get(text) == None
    {
      if text !in entries {
        return false;
      }
      AllBuiltRemove(sha256, entries, text);
      entries := entries - {text};
      order := Without(order, text);
      found := true;
    }
  }
}
