/**
 * The knowledge base: a string-to-string store kept in JavaScript object key order
 * (insertion order), so that the first-match lookup of recall and the listing of
 * `view_memory` see the entries in the order the program does.
 */
module Memory {
  import opened Wrappers
  import opened Text
  import opened ActionTag

  datatype Entry = Entry(key: string, value: string)

  /** An object has each key once. */
  predicate KeysDistinct(es: seq<Entry>) {
    forall i, j :: 0 <= i < j < |es| ==> es[i].key != es[j].key
  }

  predicate HasKey(es: seq<Entry>, k: string) {
    exists i :: 0 <= i < |es| && es[i].key == k
  }

  /** The store seen as a map. */
  function ToMap(es: seq<Entry>): (m: map<string, string>)
    ensures forall k :: k in m <==> HasKey(es, k)
  {
    if |es| == 0 then map[]
    else
      var m := ToMap(es[..|es| - 1])[es[|es| - 1].key := es[|es| - 1].value];
      assert forall k :: HasKey(es[..|es| - 1], k) ==> HasKey(es, k);
      m
  }

  /** In a store with distinct keys the map holds each entry's own value. */
  lemma {:induction false} ToMapAt(es: seq<Entry>, i: nat)
    requires KeysDistinct(es) && i < |es|
    ensures ToMap(es)[es[i].key] == es[i].value
  {
    if i < |es| - 1 {
      ToMapAt(es[..|es| - 1], i);
    }
  }

  /** `{ ...prev, [key]: value }`: an existing key keeps its place and takes the new value,
      a new key goes last. */
  function Put(es: seq<Entry>, key: string, value: string): (r: seq<Entry>)
    ensures KeysDistinct(es) ==> KeysDistinct(r)
    ensures |r| == if HasKey(es, key) then |es| else |es| + 1
    ensures forall i :: 0 <= i < |es| ==> r[i] == if es[i].key == key then Entry(key, value) else es[i]
    ensures !HasKey(es, key) ==> r[|es|] == Entry(key, value)
  {
    if HasKey(es, key) then
      seq(|es|, i requires 0 <= i < |es| => if es[i].key == key then Entry(key, value) else es[i])
    else
      es + [Entry(key, value)]
  }

  /** `delete next[key]`: the entry with that key leaves, the others keep their order. */
  function Delete(es: seq<Entry>, key: string): (r: seq<Entry>)
    ensures |r| <= |es|
    ensures forall e :: e in r <==> e in es && e.key != key
    ensures KeysDistinct(es) ==> KeysDistinct(r)
  {
    if |es| == 0 then []
    else if es[0].key == key then Delete(es[1..], key)
    else [es[0]] + Delete(es[1..], key)
  }

  /** A delete works piece by piece: the survivors of a prefix come first, in their order,
      then those of the rest, so the surviving entries keep their former order. */
  lemma {:induction false} DeleteKeepsOrder(p: seq<Entry>, q: seq<Entry>, key: string)
    ensures Delete(p + q, key) == Delete(p, key) + Delete(q, key)
  {
    if |p| == 0 {
      assert p + q == q;
    } else {
      assert (p + q)[1..] == p[1..] + q;
      DeleteKeepsOrder(p[1..], q, key);
      DeleteCons(p + q, key);
      DeleteCons(p, key);
    }
  }

  /** A delete looks at the first entry, then deletes from the rest. */
  lemma DeleteCons(es: seq<Entry>, key: string)
    requires |es| > 0
    ensures Delete(es, key) == if es[0].key == key then Delete(es[1..], key) else [es[0]] + Delete(es[1..], key)
  {
  }

  /** In a store with distinct keys, the map view holds every entry. */
  lemma ToMapHolds(es: seq<Entry>, e: Entry)
    requires KeysDistinct(es) && e in es
    ensures e.key in ToMap(es) && ToMap(es)[e.key] == e.value
  {
    var i :| 0 <= i < |es| && es[i] == e;
    ToMapAt(es, i);
  }

  /** Writing a key sets exactly that key in the map view. */
  lemma PutSets(es: seq<Entry>, key: string, value: string)
    requires KeysDistinct(es)
    ensures ToMap(Put(es, key, value)) == ToMap(es)[key := value]
  {
    var after, before := ToMap(Put(es, key, value)), ToMap(es)[key := value];
    forall k | k in before
      ensures k in after && before[k] == after[k]
    {
      PutKeeps(es, key, value, k);
    }
    forall k | k in after ensures k in before {
      PutAddsOnly(es, key, value, k);
    }
    SameMap(before, after);
  }

  /** After a write, the map view holds the written value under its key and every other
      key's old value. */
  lemma PutKeeps(es: seq<Entry>, key: string, value: string, k: string)
    requires KeysDistinct(es) && k in ToMap(es)[key := value]
    ensures k in ToMap(Put(es, key, value))
    ensures ToMap(Put(es, key, value))[k] == ToMap(es)[key := value][k]
  {
    var r := Put(es, key, value);
    if k == key {
      if HasKey(es, key) {
        var j :| 0 <= j < |es| && es[j].key == key;
        ToMapAt(r, j);
      } else {
        ToMapAt(r, |es|);
      }
    } else {
      var j :| 0 <= j < |es| && es[j].key == k;
      ToMapAt(es, j);
      ToMapAt(r, j);
    }
  }

  /** A write adds no key but its own. */
  lemma PutAddsOnly(es: seq<Entry>, key: string, value: string, k: string)
    requires k in ToMap(Put(es, key, value))
    ensures k == key || k in ToMap(es)
  {
    var r := Put(es, key, value);
    var j :| 0 <= j < |r| && r[j].key == k;
    if k != key {
      assert j < |es| && r[j] == es[j];
    }
  }

  /** Deleting a key removes exactly that key from the map view. */
  lemma DeleteRemoves(es: seq<Entry>, key: string)
    requires KeysDistinct(es)
    ensures ToMap(Delete(es, key)) == ToMap(es) - {key}
  {
    var after, before := ToMap(Delete(es, key)), ToMap(es) - {key};
    forall k | k in after
      ensures k in before && after[k] == before[k]
    {
      DeleteKeepsValue(es, key, k);
    }
    forall k | k in before
      ensures k in after
    {
      DeleteKeepsKey(es, key, k);
    }
    SameMap(after, before);
  }

  /** Two maps with the same keys and the same value under each key are equal. */
  lemma SameMap(a: map<string, string>, b: map<string, string>)
    requires forall k :: k in a ==> k in b && a[k] == b[k]
    requires forall k :: k in b ==> k in a
    ensures a == b
  {
  }

  /** What survives a delete keeps its value, and the deleted key does not survive. */
  lemma DeleteKeepsValue(es: seq<Entry>, key: string, k: string)
    requires KeysDistinct(es) && k in ToMap(Delete(es, key))
    ensures k in ToMap(es) && k != key && ToMap(Delete(es, key))[k] == ToMap(es)[k]
  {
    var r := Delete(es, key);
    var j :| 0 <= j < |r| && r[j].key == k;
    ToMapHolds(r, r[j]);
    ToMapHolds(es, r[j]);
  }

  /** Every other key survives a delete. */
  lemma DeleteKeepsKey(es: seq<Entry>, key: string, k: string)
    requires KeysDistinct(es) && k in ToMap(es) && k != key
    ensures k in ToMap(Delete(es, key))
  {
    var i :| 0 <= i < |es| && es[i].key == k;
    assert es[i] in Delete(es, key);
    ToMapHolds(Delete(es, key), es[i]);
  }

  /** The first entry whose key, lower-cased, equals `lowered`:
      `Object.keys(knowledge).find(k => k.toLowerCase() === lowered)`. */
  function FindCI(es: seq<Entry>, lowered: string): (r: Option<Entry>)
    ensures r.Some? ==> r.value in es && Lower(r.value.key) == lowered
    ensures r.None? <==> forall e :: e in es ==> Lower(e.key) != lowered
    ensures r.Some? ==> exists i | 0 <= i < |es| :: es[i] == r.value && forall j | 0 <= j < i :: Lower(es[j].key) != lowered
  {
    if |es| == 0 then None
    else if Lower(es[0].key) == lowered then Some(es[0])
    else
      var r := FindCI(es[1..], lowered);
      if r.Some? then
        var i :| 0 <= i < |es[1..]| && es[1..][i] == r.value && forall j | 0 <= j < i :: Lower(es[1..][j].key) != lowered;
        assert es[i + 1] == r.value;
        assert forall j | 0 <= j < i + 1 :: Lower(es[j].key) != lowered by {
          forall j | 0 < j < i + 1 ensures Lower(es[j].key) != lowered {
            assert es[j] == es[1..][j - 1];
          }
        }
        r
      else r
  }

  // Status texts of `remember`, `forget` and `view_memory`.
  const ViewHeader := "Recalling all stored information:\n"
  const MemoryEmpty := "My memory banks are currently empty."
  const RememberedLead := "Memory updated. I will remember that your "
  const RememberFailed := "Error: Could not update memory."
  const ForgottenLead := "Acknowledged. I have forgotten the information about '"
  const KeyUnknownLead := "Error: No information found for '"
  const KeyMissing := "Error: Key not provided."

  /** `• k: v` for one entry. */
  function Line(e: Entry): string
  {
    "• " + e.key + ": " + e.value
  }

  function Lines(es: seq<Entry>): seq<string>
  {
    seq(|es|, i requires 0 <= i < |es| => Line(es[i]))
  }

  /** The status text of `view_memory`: the header and the entries, or the empty-memory text,
      which no listing can be mistaken for. */
  function ViewMemoryText(es: seq<Entry>): (r: string)
    ensures |es| > 0 ==> ViewHeader <= r
    ensures |es| == 0 <==> r == MemoryEmpty
  {
    if |es| > 0 then
      var r := ViewHeader + Join(Lines(es), "\n");
      assert r[0] != MemoryEmpty[0];
      r
    else MemoryEmpty
  }

  /** Every line of a join occurs in it. */
  lemma {:induction false} JoinHolds(parts: seq<string>, sep: string, i: nat)
    requires i < |parts|
    ensures Contains(Join(parts, sep), parts[i])
  {
    if |parts| == 1 {
      OccursFirst(parts[0], "");
      assert parts[0] + "" == parts[0];
    } else if i == 0 {
      OccursFirst(parts[0], sep + Join(parts[1..], sep));
      assert Join(parts, sep) == parts[0] + (sep + Join(parts[1..], sep));
    } else {
      JoinHolds(parts[1..], sep, i - 1);
      var rest := Join(parts[1..], sep);
      var k :| 0 <= k <= |rest| && OccursAt(rest, k, parts[i]);
      OccursShift(parts[0] + sep, rest, k, parts[i]);
    }
  }

  /** A string occurs at the start of anything it begins. */
  lemma OccursFirst(a: string, b: string)
    ensures Contains(a + b, a)
  {
    assert (a + b)[0..|a|] == a;
    assert OccursAt(a + b, 0, a);
  }

  /** An occurrence in `b` is an occurrence in `a + b`, shifted by `|a|`. */
  lemma OccursShift(a: string, b: string, k: nat, p: string)
    requires OccursAt(b, k, p)
    ensures OccursAt(a + b, |a| + k, p) && Contains(a + b, p)
  {
    assert (a + b)[|a| + k..|a| + k + |p|] == b[k..k + |p|];
    assert OccursAt(a + b, |a| + k, p);
  }

  /** `view_memory` lists every entry as `• k: v`, and reports an empty store as empty. */
  lemma ViewMemoryListsAll(es: seq<Entry>)
    ensures |es| == 0 <==> ViewMemoryText(es) == MemoryEmpty
    ensures forall i :: 0 <= i < |es| ==> Contains(ViewMemoryText(es), Line(es[i]))
  {
    forall i | 0 <= i < |es|
      ensures Contains(ViewMemoryText(es), Line(es[i]))
    {
      JoinHolds(Lines(es), "\n", i);
      var body := Join(Lines(es), "\n");
      var k :| 0 <= k <= |body| && OccursAt(body, k, Line(es[i]));
      OccursShift(ViewHeader, body, k, Line(es[i]));
    }
    if |es| > 0 {
      assert ViewMemoryText(es)[0] == 'R';
    }
  }

  // ---- the `remember` and `forget` actions

  /** `remember`: with a key and a value, write the value under that exact key. */
  function Remember(es: seq<Entry>, params: map<string, string>): (r: Update<seq<Entry>>)
    ensures KeysDistinct(es) ==> KeysDistinct(r.store)
    ensures r.store == es || Given(params, "key")
  {
    if Given(params, "key") && Given(params, "value") then
      var key, value := params["key"], params["value"];
      Update(Put(es, key, value), RememberedLead + key + " is " + value + ".")
    else
      Update(es, RememberFailed)
  }

  /** `forget`: remove the entry whose key is exactly the given one. */
  function Forget(es: seq<Entry>, params: map<string, string>): (r: Update<seq<Entry>>)
    ensures KeysDistinct(es) ==> KeysDistinct(r.store)
    ensures |r.store| <= |es|
  {
    if Given(params, "key") then
      var key := params["key"];
      if HasKey(es, key) then
        Update(Delete(es, key), ForgottenLead + key + "'.")
      else
        Update(es, KeyUnknownLead + key + "'.")
    else
      Update(es, KeyMissing)
  }

  /** `remember` with a non-empty key and value sets exactly that key; otherwise nothing changes
      and the error is reported. */
  lemma RememberSetsKey(es: seq<Entry>, params: map<string, string>)
    requires KeysDistinct(es)
    ensures Given(params, "key") && Given(params, "value") ==>
      && ToMap(Remember(es, params).store) == ToMap(es)[params["key"] := params["value"]]
      && Remember(es, params).text
         == RememberedLead + params["key"] + " is " + params["value"] + "."
    ensures !(Given(params, "key") && Given(params, "value")) ==>
      Remember(es, params) == Update(es, RememberFailed)
  {
    if Given(params, "key") && Given(params, "value") {
      PutSets(es, params["key"], params["value"]);
    }
  }

  /** `forget` removes a key only when that exact key is stored; otherwise the store is left
      as it was and the message says nothing was found, or, without a key, that one is needed. */
  lemma ForgetRemovesKey(es: seq<Entry>, params: map<string, string>)
    requires KeysDistinct(es)
    ensures Given(params, "key") ==> var key := params["key"];
      && (key in ToMap(es) ==>
            && ToMap(Forget(es, params).store) == ToMap(es) - {key}
            && Forget(es, params).text == ForgottenLead + key + "'.")
      && (key !in ToMap(es) ==>
            Forget(es, params) == Update(es, KeyUnknownLead + key + "'."))
    ensures !Given(params, "key") ==> Forget(es, params) == Update(es, KeyMissing)
  {
    if Given(params, "key") {
      DeleteRemoves(es, params["key"]);
    }
  }

  /** Remembering a key and then forgetting the same key leaves it absent, and the other keys
      as they were before the `remember`. */
  lemma RememberThenForget(es: seq<Entry>, params: map<string, string>)
    requires KeysDistinct(es) && Given(params, "key") && Given(params, "value")
    ensures var after := Forget(Remember(es, params).store, params).store;
      && params["key"] !in ToMap(after)
      && ToMap(after) == ToMap(es) - {params["key"]}
  {
    var key, value := params["key"], params["value"];
    var mid := Put(es, key, value);
    assert Remember(es, params).store == mid;
    PutHasKey(es, key, value);
    assert Forget(mid, params).store == Delete(mid, key);
    PutThenDelete(es, key, value);
  }

  lemma PutHasKey(es: seq<Entry>, key: string, value: string)
    ensures HasKey(Put(es, key, value), key)
  {
    if HasKey(es, key) {
      var j :| 0 <= j < |es| && es[j].key == key;
      assert Put(es, key, value)[j].key == key;
    } else {
      assert Put(es, key, value)[|es|].key == key;
    }
  }

  /** Writing a key and then deleting it leaves the other keys of the map view as they were. */
  lemma PutThenDelete(es: seq<Entry>, key: string, value: string)
    requires KeysDistinct(es)
    ensures ToMap(Delete(Put(es, key, value), key)) == ToMap(es) - {key}
  {
    PutSets(es, key, value);
    DeleteRemoves(Put(es, key, value), key);
    SetThenRemove(ToMap(es), ToMap(Put(es, key, value)), ToMap(Delete(Put(es, key, value), key)), key, value);
  }

  lemma SetThenRemove(m: map<string, string>, written: map<string, string>, removed: map<string, string>, key: string, value: string)
    requires written == m[key := value] && removed == written - {key}
    ensures removed == m - {key}
  {
  }
}
