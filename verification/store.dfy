/** The document-store primitives every repository uses: lookup by id,
    `find(filter)` over a collection, and turning a list of id strings into
    the set of ids it names. A collection is a map from id to document. */
module Store {
  import opened Wrappers
  import opened Ids

  predicate NoDup<T(==)>(s: seq<T>) {
    forall i, j :: 0 <= i < j < |s| ==> s[i] != s[j]
  }

  lemma NoDupCons<T>(x: T, r: seq<T>)
    requires x !in r && NoDup(r)
    ensures NoDup([x] + r)
  {
    forall i, j | 0 <= i < j < |[x] + r| ensures ([x] + r)[i] != ([x] + r)[j] {
      assert ([x] + r)[j] == r[j - 1];
      if i > 0 { assert ([x] + r)[i] == r[i - 1]; }
    }
  }

  /** Distinct documents of one collection have distinct ids. */
  lemma KeyedDistinct<R>(docs: map<Id, R>, idOf: R -> Id, rs: seq<R>)
    requires NoDup(rs)
    requires forall r :: r in rs ==> idOf(r) in docs && docs[idOf(r)] == r
    ensures forall i, j :: 0 <= i < j < |rs| ==> idOf(rs[i]) != idOf(rs[j])
  {
    forall i, j | 0 <= i < j < |rs| ensures idOf(rs[i]) != idOf(rs[j]) {
      assert rs[i] in rs && rs[j] in rs;
    }
  }

  /** The ids of a sequence of documents. */
  ghost function IdsOf<R>(rs: seq<R>, idOf: R -> Id): (ks: set<Id>)
    ensures forall k :: k in ks <==> exists j :: 0 <= j < |rs| && idOf(rs[j]) == k
  {
    if rs == [] then {}
    else
      var rest := IdsOf(rs[1..], idOf);
      assert forall k :: k in rest <==> exists j :: 1 <= j < |rs| && idOf(rs[j]) == k by {
        forall k | k in rest ensures exists j :: 1 <= j < |rs| && idOf(rs[j]) == k {
          var j :| 0 <= j < |rs[1..]| && idOf(rs[1..][j]) == k;
          assert idOf(rs[j + 1]) == k;
        }
        forall k | (exists j :: 1 <= j < |rs| && idOf(rs[j]) == k) ensures k in rest {
          var j :| 1 <= j < |rs| && idOf(rs[j]) == k;
          assert idOf(rs[1..][j - 1]) == k;
        }
      }
      {idOf(rs[0])} + rest
  }

  /** Documents with distinct ids have as many ids as documents. */
  lemma {:induction false} IdsOfCount<R>(rs: seq<R>, idOf: R -> Id)
    requires forall i, j :: 0 <= i < j < |rs| ==> idOf(rs[i]) != idOf(rs[j])
    ensures |IdsOf(rs, idOf)| == |rs|
  {
    if rs != [] {
      var tail := rs[1..];
      assert forall i, j :: 0 <= i < j < |tail| ==> idOf(tail[i]) != idOf(tail[j]) by {
        forall i, j | 0 <= i < j < |tail| ensures idOf(tail[i]) != idOf(tail[j]) {
          assert tail[i] == rs[i + 1] && tail[j] == rs[j + 1];
        }
      }
      IdsOfCount(tail, idOf);
      assert forall j :: 0 <= j < |tail| ==> idOf(tail[j]) != idOf(rs[0]) by {
        forall j | 0 <= j < |tail| ensures idOf(tail[j]) != idOf(rs[0]) {
          assert tail[j] == rs[j + 1];
        }
      }
      assert IdsOf(rs, idOf) == {idOf(rs[0])} + IdsOf(tail, idOf);
    }
  }

  /** Two writes to one key leave only the second. */
  lemma OverwriteTwice<V>(m: map<Id, V>, k: Id, a: V, b: V)
    ensures m[k := a][k := b] == m[k := b]
  {
  }

  /** `find_one({"_id": ObjectId(s)})`, with the exception a malformed `s`
      raises read as "not found", as every repository's try/except does. */
  function Find<R>(docs: map<Id, R>, s: string): (r: Option<R>)
    ensures r.Some? <==> IsObjectId(s) && ParseObjectId(s).value in docs
    ensures r.Some? ==> r.value == docs[ParseObjectId(s).value]
    ensures IsCanonical(s) && s in docs ==> r == Some(docs[s])
  {
    match ParseObjectId(s)
    case None => None
    case Some(k) => if k in docs then Some(docs[k]) else None
  }

  /** Whether some string of `ids` denotes the document id `k`. */
  predicate Mentions(ids: seq<string>, k: Id) {
    exists j :: 0 <= j < |ids| && ParseObjectId(ids[j]) == Some(k)
  }

  /** The `object_ids` loop of `get_events_by_ids` and `get_users_by_ids`:
      convert each string, skipping the ones `ObjectId` rejects. */
  method ParseAll(ids: seq<string>) returns (keys: seq<Id>)
    ensures |keys| <= |ids|
    ensures forall i :: 0 <= i < |keys| ==> IsCanonical(keys[i])
    ensures forall k :: k in keys <==> Mentions(ids, k)
  {
    keys := [];
    for i := 0 to |ids|
      invariant |keys| <= i
      invariant forall m :: 0 <= m < |keys| ==> IsCanonical(keys[m])
      invariant forall k :: k in keys <==> exists j :: 0 <= j < i && ParseObjectId(ids[j]) == Some(k)
    {
      match ParseObjectId(ids[i]) {
        case None =>
        case Some(k) => keys := keys + [k];
      }
    }
  }

  /** `find(filter)` followed by the cursor loop that collects the documents:
      every document that passes `keep`, each exactly once, in an order the
      store chooses. `idOf` reads a document's own id. */
  method Select<R(==)>(docs: map<Id, R>, idOf: R -> Id, keep: R -> bool) returns (rs: seq<R>)
    requires forall k :: k in docs ==> idOf(docs[k]) == k
    ensures NoDup(rs)
    ensures forall r :: r in rs <==> idOf(r) in docs && docs[idOf(r)] == r && keep(r)
  {
    var rest := docs.Keys;
    rs := [];
    while rest != {}
      invariant rest <= docs.Keys
      invariant NoDup(rs)
      invariant forall r :: r in rs ==> idOf(r) in docs && idOf(r) !in rest && docs[idOf(r)] == r && keep(r)
      invariant forall k :: k in docs && k !in rest && keep(docs[k]) ==> docs[k] in rs
      decreases rest
    {
      var k :| k in rest;
      if keep(docs[k]) {
        rs := rs + [docs[k]];
      }
      rest := rest - {k};
    }
  }
}
