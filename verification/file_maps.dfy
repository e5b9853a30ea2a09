/**
 * The in-memory file map: a plain JavaScript object from file name to
 * object URL. Its keys keep insertion order (which `Object.keys` reports
 * and `find` scans), and assigning to an existing key replaces the value
 * in place, so it is modelled as an association list with distinct keys.
 */
module FileMaps {
  import opened Optional
  import opened Strings

  /** What `URL.createObjectURL` returns: a `blob:` URL. */
  predicate IsBlobUrl(s: string)
  {
    StartsWith(s, "blob:")
  }

  type BlobUrl = s: string | IsBlobUrl(s) witness "blob:"

  datatype Entry = Entry(key: string, url: string)

  type FileMap = seq<Entry>

  /** No key occurs twice, as in any JavaScript object. */
  predicate Valid(m: FileMap)
  {
    forall i, j :: 0 <= i < j < |m| ==> m[i].key != m[j].key
  }

  function Keys(m: FileMap): (ks: set<string>)
    ensures forall k :: k in ks <==> exists i :: 0 <= i < |m| && m[i].key == k
  {
    set i | 0 <= i < |m| :: m[i].key
  }

  /** Every value of the map is a `blob:` URL. */
  predicate AllBlobUrls(m: FileMap)
  {
    forall i :: 0 <= i < |m| ==> IsBlobUrl(m[i].url)
  }

  /** Position of key `k`, if present (the first one, should keys repeat). */
  function IndexOf(m: FileMap, k: string): (r: Option<nat>)
    ensures r.None? <==> k !in Keys(m)
    ensures r.Some? ==> r.value < |m| && m[r.value].key == k
    ensures r.Some? ==> forall j :: 0 <= j < r.value ==> m[j].key != k
    decreases |m|
  {
    if |m| == 0 then None
    else if m[0].key == k then Some(0)
    else
      var r := IndexOf(m[1..], k);
      assert k in Keys(m) ==> k in Keys(m[1..]) by {
        if k in Keys(m) {
          var i :| 0 <= i < |m| && m[i].key == k;
          assert m[1..][i - 1].key == k;
        }
      }
      match r
      case None => None
      case Some(i) => Some(i + 1)
  }

  /** `m[k]`: the value stored under `k`, if any. */
  function Get(m: FileMap, k: string): (r: Option<string>)
    ensures r.None? <==> k !in Keys(m)
    ensures r.Some? ==> Entry(k, r.value) in m
    ensures Valid(m) ==> forall i :: 0 <= i < |m| && m[i].key == k ==> r == Some(m[i].url)
  {
    match IndexOf(m, k)
    case None => None
    case Some(i) => Some(m[i].url)
  }

  /** `m[k] = v`: replace the value in place, or append a new key at the end. */
  function Put(m: FileMap, k: string, v: string): (r: FileMap)
    ensures k in Keys(m) ==> |r| == |m| && forall i :: 0 <= i < |m| ==> r[i].key == m[i].key
    ensures k !in Keys(m) ==> r == m + [Entry(k, v)]
  {
    match IndexOf(m, k)
    case None => m + [Entry(k, v)]
    case Some(i) => m[i := Entry(k, v)]
  }

  /** Reading back a key just written gives the written value; nothing else moves. */
  lemma PutGet(m: FileMap, k: string, v: string, k': string)
    ensures Get(Put(m, k, v), k') == if k' == k then Some(v) else Get(m, k')
  {
    var r := Put(m, k, v);
    match IndexOf(m, k)
    case None =>
      if k' != k {
        match IndexOf(m, k')
        case None =>
          assert k' !in Keys(r);
        case Some(j) =>
          IndexOfAt(r, k', j);
      }
      else {
        IndexOfAt(r, k, |m|);
      }
    case Some(i) =>
      if k' == k {
        IndexOfAt(r, k, i);
      } else {
        match IndexOf(m, k')
        case None =>
          assert k' !in Keys(r);
        case Some(j) =>
          IndexOfAt(r, k', j);
      }
  }

  /** The first position holding `k` is what `IndexOf` returns. */
  lemma IndexOfAt(m: FileMap, k: string, i: nat)
    requires i < |m| && m[i].key == k
    requires forall j :: 0 <= j < i ==> m[j].key != k
    ensures IndexOf(m, k) == Some(i)
  {
    assert k in Keys(m);
  }

  lemma PutKeys(m: FileMap, k: string, v: string)
    ensures Keys(Put(m, k, v)) == Keys(m) + {k}
    ensures Valid(m) ==> Valid(Put(m, k, v))
    ensures AllBlobUrls(m) && IsBlobUrl(v) ==> AllBlobUrls(Put(m, k, v))
  {
    var r := Put(m, k, v);
    if k in Keys(m) {
      assert Keys(r) == Keys(m);
    } else {
      assert r == m + [Entry(k, v)];
      forall x | x in Keys(r) ensures x in Keys(m) + {k} {
        var i :| 0 <= i < |r| && r[i].key == x;
        if i < |m| { assert m[i].key == x; }
      }
      forall x | x in Keys(m) ensures x in Keys(r) {
        var i :| 0 <= i < |m| && m[i].key == x;
        assert r[i].key == x;
      }
      assert r[|m|].key == k;
    }
  }
}
