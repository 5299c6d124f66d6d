/**
 * Records of the in-memory store: a user or a book is a JSON object whose
 * fields hold strings, modelled as a map from field name to value.  This
 * module holds the lookups and the pure sequence transformations that the
 * route handlers apply to the shared arrays.
 */
module Records {

  datatype Option<T> = None | Some(value: T)

  /** A JSON object with string-valued fields; an `undefined` field is an absent key. */
  type Record = map<string, string>

  const Id := "id"

  /** JavaScript truthiness of the string field `r[key]`: present and not the empty string. */
  predicate Truthy(r: Record, key: string) {
    key in r && r[key] != ""
  }

  /** `rec.id === id` */
  predicate HasId(r: Record, id: string) {
    Id in r && r[Id] == id
  }

  /** Reading a property that may be `undefined`. */
  function Lookup(r: Record, key: string): Option<string> {
    if key in r then Some(r[key]) else None
  }

  /** Assigning a property; assigning `undefined` leaves the key without a value. */
  function Assign(r: Record, key: string, v: Option<string>): (r': Record)
    ensures Lookup(r', key) == v
    ensures forall k :: k != key ==> Lookup(r', k) == Lookup(r, k)
  {
    match v
    case Some(s) => r[key := s]
    case None => r - {key}
  }

  /** Records that agree on every lookup are equal. */
  lemma LookupExtensional(a: Record, b: Record)
    requires forall k :: Lookup(a, k) == Lookup(b, k)
    ensures a == b
  {
    assert a.Keys == b.Keys by {
      forall k ensures k in a <==> k in b {
        assert Lookup(a, k) == Lookup(b, k);
      }
    }
    forall k | k in a ensures a[k] == b[k] {
      assert Lookup(a, k) == Lookup(b, k);
    }
  }

  /** The index of the first record whose id is `id` (`Array.prototype.find`). */
  function FindIndex(rs: seq<Record>, id: string): (r: Option<nat>)
    ensures r.Some? ==> r.value < |rs| && HasId(rs[r.value], id)
    ensures r.Some? ==> forall j :: 0 <= j < r.value ==> !HasId(rs[j], id)
    ensures r.None? <==> forall j :: 0 <= j < |rs| ==> !HasId(rs[j], id)
  {
    if |rs| == 0 then None
    else if HasId(rs[0], id) then Some(0)
    else match FindIndex(rs[1..], id)
      case None => None
      case Some(k) => Some(k + 1)
  }

  /** Every field of `fields` is truthy in `body`. */
  predicate AllPresent(body: Record, fields: seq<string>) {
    forall f | f in fields :: Truthy(body, f)
  }

  /** The object literal `{f1, f2, ...}` built from destructured fields of `body`. */
  function Project(body: Record, fields: seq<string>): (r: Record)
    ensures forall f | f in r :: f in fields && f in body && r[f] == body[f]
    ensures AllPresent(body, fields) ==> forall f | f in fields :: f in r
  {
    map f | f in fields && f in body :: body[f]
  }

  /** `rs.map(rec => rec.id === id ? {...rec, ...data} : rec)` */
  function MergeMatching(rs: seq<Record>, id: string, data: Record): (r: seq<Record>)
    ensures |r| == |rs|
    ensures Id !in data ==> SameIds(r, rs)
  {
    seq(|rs|, i requires 0 <= i < |rs| => if HasId(rs[i], id) then rs[i] + data else rs[i])
  }

  /** `rs.splice(i, 1)` */
  function RemoveAt(rs: seq<Record>, i: nat): (r: seq<Record>)
    requires i < |rs|
    ensures |r| == |rs| - 1
    ensures multiset(r) + multiset{rs[i]} == multiset(rs)
  {
    assert rs == rs[..i] + [rs[i]] + rs[i + 1..];
    rs[..i] + rs[i + 1..]
  }

  /** No two records share an id (enforced on create only). */
  ghost predicate UniqueIds(rs: seq<Record>) {
    forall i, j :: 0 <= i < j < |rs| && Id in rs[i] && Id in rs[j] ==> rs[i][Id] != rs[j][Id]
  }

  /** Two sequences whose records carry the same ids at the same positions. */
  ghost predicate SameIds(a: seq<Record>, b: seq<Record>) {
    |a| == |b| && forall i :: 0 <= i < |a| ==> Lookup(a[i], Id) == Lookup(b[i], Id)
  }

  // ---------------------------------------------------------------------------
  // Lookup

  /** A lookup depends on the ids alone, so it gives the same answer on sequences with the same ids. */
  lemma {:induction false} FindIndexSameIds(a: seq<Record>, b: seq<Record>, id: string)
    requires SameIds(a, b)
    ensures FindIndex(a, id) == FindIndex(b, id)
  {
    if |a| > 0 {
      assert Lookup(a[0], Id) == Lookup(b[0], Id);
      assert HasId(a[0], id) == HasId(b[0], id);
      assert SameIds(a[1..], b[1..]) by {
        forall i | 0 <= i < |a| - 1 ensures Lookup(a[1..][i], Id) == Lookup(b[1..][i], Id) {
          assert a[1..][i] == a[i + 1] && b[1..][i] == b[i + 1];
        }
      }
      FindIndexSameIds(a[1..], b[1..], id);
    }
  }

  /** Appending a record with a fresh id makes the lookup find it at the end. */
  lemma {:induction false} FindAfterAppend(rs: seq<Record>, x: Record, id: string)
    requires FindIndex(rs, id).None? && HasId(x, id)
    ensures FindIndex(rs + [x], id) == Some(|rs|)
  {
    if |rs| > 0 {
      assert (rs + [x])[1..] == rs[1..] + [x];
      assert (rs + [x])[0] == rs[0];
      FindAfterAppend(rs[1..], x, id);
    }
  }

  /** Appending does not change the lookup of an id that is already present. */
  lemma {:induction false} FindBeforeAppend(rs: seq<Record>, x: Record, id: string)
    requires FindIndex(rs, id).Some?
    ensures FindIndex(rs + [x], id) == FindIndex(rs, id)
  {
    if !HasId(rs[0], id) {
      assert (rs + [x])[1..] == rs[1..] + [x];
      FindBeforeAppend(rs[1..], x, id);
    }
  }

  // ---------------------------------------------------------------------------
  // Create

  /** The created record holds exactly the required fields, with the body's values. */
  lemma ProjectShape(body: Record, fields: seq<string>)
    requires AllPresent(body, fields)
    ensures forall f :: f in Project(body, fields) <==> f in fields
    ensures forall f | f in fields :: Project(body, fields)[f] == body[f]
  {
  }

  /** Creating with a fresh id keeps the ids unique. */
  lemma AppendKeepsUnique(rs: seq<Record>, x: Record, id: string)
    requires UniqueIds(rs) && FindIndex(rs, id).None? && HasId(x, id)
    ensures UniqueIds(rs + [x])
  {
    var s := rs + [x];
    forall i, j | 0 <= i < j < |s| && Id in s[i] && Id in s[j] ensures s[i][Id] != s[j][Id] {
      if j == |rs| {
        assert !HasId(rs[i], id);
      } else {
        assert s[i] == rs[i] && s[j] == rs[j];
      }
    }
  }

  // ---------------------------------------------------------------------------
  // Update

  /**
   * The update keeps length and order; a record whose id does not match is
   * unchanged; a matching record keeps every field `data` does not name and
   * takes every field `data` names.
   */
  lemma MergeMatchingShape(rs: seq<Record>, id: string, data: Record)
    ensures |MergeMatching(rs, id, data)| == |rs|
    ensures forall i | 0 <= i < |rs| && !HasId(rs[i], id) :: MergeMatching(rs, id, data)[i] == rs[i]
    ensures forall i | 0 <= i < |rs| && HasId(rs[i], id) ::
      && MergeMatching(rs, id, data)[i].Keys == rs[i].Keys + data.Keys
      && (forall k | k in data :: MergeMatching(rs, id, data)[i][k] == data[k])
      && (forall k | k in rs[i] && k !in data :: MergeMatching(rs, id, data)[i][k] == rs[i][k])
  {
  }

  /** Updating with the empty object changes nothing. */
  lemma MergeEmptyIsIdentity(rs: seq<Record>, id: string)
    ensures MergeMatching(rs, id, map[]) == rs
  {
    var r := MergeMatching(rs, id, map[]);
    forall i | 0 <= i < |rs| ensures r[i] == rs[i] {
      assert rs[i] + map[] == rs[i];
    }
  }

  /** When `data` leaves the id alone, the updated record is still the one found by id. */
  lemma FindAfterMerge(rs: seq<Record>, id: string, data: Record)
    requires Id !in data || data[Id] == id
    ensures FindIndex(MergeMatching(rs, id, data), id) == FindIndex(rs, id)
  {
    var r := MergeMatching(rs, id, data);
    assert SameIds(r, rs) by {
      forall i | 0 <= i < |rs| ensures Lookup(r[i], Id) == Lookup(rs[i], Id) {
        if HasId(rs[i], id) {
          assert Lookup(r[i], Id) == Some(id);
        }
      }
    }
    FindIndexSameIds(r, rs, id);
  }

  /** An update may give two records the same id: the store does not guard against it. */
  lemma MergeMayBreakUnique()
    ensures var rs := [map[Id := "1"], map[Id := "2"]];
            UniqueIds(rs) && !UniqueIds(MergeMatching(rs, "1", map[Id := "2"]))
  {
    var rs := [map[Id := "1"], map[Id := "2"]];
    var r := MergeMatching(rs, "1", map[Id := "2"]);
    assert HasId(rs[0], "1") && !HasId(rs[1], "1");
    assert r[0][Id] == "2" && r[1][Id] == "2";
  }

  // ---------------------------------------------------------------------------
  // Delete

  /** Removing one element: length drops by one and the others keep their relative order. */
  lemma RemoveAtShape(rs: seq<Record>, i: nat)
    requires i < |rs|
    ensures |RemoveAt(rs, i)| == |rs| - 1
    ensures forall j | 0 <= j < i :: RemoveAt(rs, i)[j] == rs[j]
    ensures forall j | i <= j < |rs| - 1 :: RemoveAt(rs, i)[j] == rs[j + 1]
  {
  }

  /** With unique ids, the id of the removed record can no longer be found. */
  lemma FindAfterRemove(rs: seq<Record>, id: string)
    requires UniqueIds(rs) && FindIndex(rs, id).Some?
    ensures FindIndex(RemoveAt(rs, FindIndex(rs, id).value), id).None?
  {
    var i := FindIndex(rs, id).value;
    var r := RemoveAt(rs, i);
    forall j | 0 <= j < |r| ensures !HasId(r[j], id) {
      if j >= i {
        assert r[j] == rs[j + 1];
      }
    }
  }

  /** Removing a record keeps the ids unique. */
  lemma RemoveKeepsUnique(rs: seq<Record>, i: nat)
    requires UniqueIds(rs) && i < |rs|
    ensures UniqueIds(RemoveAt(rs, i))
  {
    var r := RemoveAt(rs, i);
    forall a, b | 0 <= a < b < |r| && Id in r[a] && Id in r[b] ensures r[a][Id] != r[b][Id] {
      var a' := if a < i then a else a + 1;
      var b' := if b < i then b else b + 1;
      assert r[a] == rs[a'] && r[b] == rs[b'];
    }
  }
}
