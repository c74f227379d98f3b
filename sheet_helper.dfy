/** The record helpers of modules/sheetHelper.js: `getFieldMask`,
    `createObject` and `trimObjectSpace`. The column-label helpers of the same
    file are in module ColumnCodec. */
module SheetHelper {
  import opened Strings
  import opened Records

  /** `getFieldMask(obj)`: the record's keys, in order, joined by ",". */
  function GetFieldMask(obj: Record): (mask: string)
    ensures obj == [] ==> mask == ""
    ensures |obj| == 1 ==> mask == obj[0].0
  {
    Join(Keys(obj), ',')
  }

  /** When no key holds a comma, the mask of a record with k >= 1 keys has
      exactly k - 1 commas, and splitting it at the commas gives the keys
      back in order. */
  lemma FieldMaskSplits(obj: Record)
    requires |obj| >= 1
    requires forall i :: 0 <= i < |obj| ==> ',' !in obj[i].0
    ensures Occurrences(GetFieldMask(obj), ',') == |obj| - 1
    ensures Split(GetFieldMask(obj), ',') == Keys(obj)
  {
    JoinSeparatorCount(Keys(obj), ',');
    SplitJoin(Keys(obj), ',');
  }

  /** The entries `for (var key in obj)` visits, each key trimmed. */
  function TrimEntries(obj: Record): (es: seq<Entry>)
    ensures |es| == |obj|
    ensures Keys(es) == TrimAll(Keys(obj))
    ensures forall i :: 0 <= i < |obj| ==> es[i].1 == obj[i].1
  {
    seq(|obj|, i requires 0 <= i < |obj| => (Trim(obj[i].0), obj[i].1))
  }

  /** The object `createObject(obj)` returns: `newObj[key.trim()] = obj[key]`
      for each key of `obj` in turn, starting from `{}`. */
  function TrimKeys(obj: Record): (r: Record)
  {
    FromEntries(TrimEntries(obj))
  }

  /** `createObject(obj)`: a new object whose keys are the trimmed keys of
      `obj`, each once, in the order their first untrimmed key is
      enumerated, and whose value under a trimmed key is the value of the
      last key of `obj` that trims to it. */
  method CreateObject(obj: Record) returns (newObj: Record)
    ensures newObj == TrimKeys(obj)
    ensures WellFormed(newObj)
    ensures Keys(newObj) == Dedup(TrimAll(Keys(obj)))
    ensures forall k :: Lookup(newObj, k) == LastValue(TrimEntries(obj), k)
  {
    newObj := [];
    for i := 0 to |obj|
      invariant newObj == FromEntries(TrimEntries(obj[..i]))
    {
      assert TrimEntries(obj[..i + 1])[..i] == TrimEntries(obj[..i]);
      newObj := Assign(newObj, Trim(obj[i].0), obj[i].1);
    }
    assert obj[..|obj|] == obj;
    FromEntriesKeys(TrimEntries(obj));
    forall k ensures Lookup(newObj, k) == LastValue(TrimEntries(obj), k) {
      FromEntriesLookup(TrimEntries(obj), k);
    }
  }

  /** Every key of `createObject(obj)` is trimmed, and the keys are exactly
      the trimmed keys of `obj`. */
  lemma TrimKeysKeys(obj: Record)
    ensures forall k :: k in Keys(TrimKeys(obj)) <==> exists i :: 0 <= i < |obj| && Trim(obj[i].0) == k
    ensures forall k :: k in Keys(TrimKeys(obj)) ==> IsTrimmed(k)
  {
    var es := TrimEntries(obj);
    var ks := Keys(TrimKeys(obj));
    assert forall x :: x in ks <==> x in Keys(es) by {
      FromEntriesKeys(es);
      DedupContents(Keys(es));
    }
    assert forall i :: 0 <= i < |obj| ==> Keys(es)[i] == Trim(obj[i].0);
    forall k | k in ks ensures exists i :: 0 <= i < |obj| && Trim(obj[i].0) == k {
      var i :| 0 <= i < |es| && Keys(es)[i] == k;
    }
    forall k | (exists i :: 0 <= i < |obj| && Trim(obj[i].0) == k) ensures k in ks {
      var i :| 0 <= i < |obj| && Trim(obj[i].0) == k;
      assert Keys(es)[i] == k;
    }
    forall k | k in ks ensures IsTrimmed(k) {
      var i :| 0 <= i < |es| && Keys(es)[i] == k;
      assert k == Trim(obj[i].0);
    }
  }

  /** The value under a trimmed key is the value of the last key that trims
      to it: when two keys trim to the same string, the later one wins. */
  lemma TrimKeysLastWins(obj: Record, i: nat)
    requires i < |obj|
    requires forall m :: i < m < |obj| ==> Trim(obj[m].0) != Trim(obj[i].0)
    ensures Lookup(TrimKeys(obj), Trim(obj[i].0)) == Some(obj[i].1)
  {
    FromEntriesLookup(TrimEntries(obj), Trim(obj[i].0));
    LastValueAt(TrimEntries(obj), i);
  }

  /** Trimming the keys of an object whose keys are already trimmed changes
      nothing; in particular `createObject` is idempotent. */
  lemma TrimKeysOfTrimmed(obj: Record)
    requires WellFormed(obj)
    requires forall i :: 0 <= i < |obj| ==> IsTrimmed(obj[i].0)
    ensures TrimKeys(obj) == obj
  {
    var es := TrimEntries(obj);
    forall i | 0 <= i < |obj| ensures es[i] == obj[i] {
      TrimmedIsFixed(obj[i].0);
    }
    assert es == obj;
    FromEntriesDistinct(obj);
  }

  lemma TrimKeysIdempotent(obj: Record)
    ensures TrimKeys(TrimKeys(obj)) == TrimKeys(obj)
  {
    var t := TrimKeys(obj);
    TrimKeysKeys(obj);
    forall i | 0 <= i < |t| ensures IsTrimmed(t[i].0) {
      assert t[i].0 in Keys(t);
    }
    TrimKeysOfTrimmed(t);
  }

  /** `trimObjectSpace(obj)`: an array of objects is mapped element by
      element through `createObject`, keeping its length and order; a single
      object is passed to it and stays a single object. */
  function TrimObjectSpace(body: Body): (r: Body)
    ensures r.List? <==> body.List?
    ensures body.Single? ==> r.rec == TrimKeys(body.rec)
    ensures body.List? ==> && |r.recs| == |body.recs|
                           && forall i :: 0 <= i < |body.recs| ==> r.recs[i] == TrimKeys(body.recs[i])
  {
    match body
    case List(recs) => List(seq(|recs|, i requires 0 <= i < |recs| => TrimKeys(recs[i])))
    case Single(rec) => Single(TrimKeys(rec))
  }

  /** `trimObjectSpace` is idempotent. */
  lemma TrimObjectSpaceIdempotent(body: Body)
    ensures TrimObjectSpace(TrimObjectSpace(body)) == TrimObjectSpace(body)
  {
    match body
    case Single(rec) =>
      TrimKeysIdempotent(rec);
    case List(recs) =>
      var once := TrimObjectSpace(body).recs;
      var twice := TrimObjectSpace(TrimObjectSpace(body)).recs;
      forall i | 0 <= i < |recs| ensures twice[i] == once[i] {
        TrimKeysIdempotent(recs[i]);
      }
  }

  /** `getFieldMask({Name: "Alice", Age: "30"})` is "Name,Age". */
  lemma FieldMaskExample()
    ensures GetFieldMask([("Name", Str("Alice")), ("Age", Str("30"))]) == "Name,Age"
  {
    assert Keys([("Name", Str("Alice")), ("Age", Str("30"))]) == ["Name", "Age"];
  }
}
