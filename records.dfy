/** JavaScript plain objects as ordered association lists.

    A JS object enumerates its keys in insertion order; assigning to a key it
    already has keeps that key's position and replaces the value, assigning to
    a new key appends it. A `Record` is the list of its (key, value) entries
    in enumeration order. */
module Records {

  datatype Option<T> = None | Some(value: T)

  /** The JSON values a cell or a request field can hold. Numbers are
      integers here (see README, "Left out"). */
  datatype Value = Str(s: string) | Num(n: int) | Bool(b: bool) | Null

  /** JavaScript truthiness: "", 0, false and null are falsy. */
  function Truthy(v: Value): (t: bool)
    ensures !t <==> v in {Str(""), Num(0), Bool(false), Null}
  {
    match v
    case Str(s) => s != ""
    case Num(n) => n != 0
    case Bool(b) => b
    case Null => false
  }

  type Entry = (string, Value)
  type Record = seq<Entry>

  /** A request body or a response: one object, or an array of objects. */
  datatype Body = Single(rec: Record) | List(recs: seq<Record>)

  /** The keys of a record in enumeration order (lodash `_.keys`). */
  function Keys(r: Record): (ks: seq<string>)
    ensures |ks| == |r|
    ensures forall i :: 0 <= i < |r| ==> ks[i] == r[i].0
  {
    seq(|r|, i requires 0 <= i < |r| => r[i].0)
  }

  predicate Distinct<T(==)>(s: seq<T>) {
    forall i, j :: 0 <= i < j < |s| ==> s[i] != s[j]
  }

  /** Without repetitions, the last element is not among the others, which
      are without repetitions too. */
  lemma DistinctLast<T>(s: seq<T>)
    requires Distinct(s) && s != []
    ensures s[|s| - 1] !in s[..|s| - 1] && Distinct(s[..|s| - 1])
  {
    var n := |s| - 1;
    forall j | 0 <= j < n ensures s[..n][j] != s[n] {
    }
  }

  /** Every object a JS program can build has distinct keys. */
  predicate WellFormed(r: Record) {
    Distinct(Keys(r))
  }

  /** `r[k]`: the value under key `k`, or `None` for `undefined`. */
  function Lookup(r: Record, k: string): (v: Option<Value>)
    ensures v.Some? ==> (k, v.value) in r
    ensures v.None? ==> forall i :: 0 <= i < |r| ==> r[i].0 != k
  {
    if r == [] then None
    else if r[0].0 == k then Some(r[0].1)
    else Lookup(r[1..], k)
  }

  lemma KeysCons(e: Entry, r: Record)
    ensures Keys([e] + r) == [e.0] + Keys(r)
  {
  }

  lemma KeysPrefix(r: Record, n: nat)
    requires n <= |r|
    ensures Keys(r[..n]) == Keys(r)[..n]
  {
  }

  /** `r[k] = v`: an existing key keeps its position, a new key is appended
      at the end. */
  function Assign(r: Record, k: string, v: Value): (r': Record)
    ensures Keys(r') == if k in Keys(r) then Keys(r) else Keys(r) + [k]
  {
    if r == [] then [(k, v)]
    else if r[0].0 == k then
      var r' := [(k, v)] + r[1..];
      KeysCons(r[0], r[1..]);
      KeysCons((k, v), r[1..]);
      r'
    else
      var rest := Assign(r[1..], k, v);
      KeysCons(r[0], r[1..]);
      KeysCons(r[0], rest);
      [r[0]] + rest
  }

  /** After `r[k] = v`, `r[k]` is `v` and every other key reads as before. */
  lemma {:induction false} AssignLookup(r: Record, k: string, v: Value)
    ensures Lookup(Assign(r, k, v), k) == Some(v)
    ensures forall k' :: k' != k ==> Lookup(Assign(r, k, v), k') == Lookup(r, k')
  {
    if r != [] && r[0].0 != k {
      AssignLookup(r[1..], k, v);
    }
  }

  /** Assigning to a key the object does not have appends its entry. */
  lemma {:induction false} AssignAppends(r: Record, k: string, v: Value)
    requires k !in Keys(r)
    ensures Assign(r, k, v) == r + [(k, v)]
  {
    if r != [] {
      KeysCons(r[0], r[1..]);
      assert r == [r[0]] + r[1..];
      AssignAppends(r[1..], k, v);
    }
  }

  /** Dropping the first entry of a well-formed object leaves a well-formed
      object none of whose keys is the first key. */
  lemma WellFormedTail(r: Record)
    requires WellFormed(r) && r != []
    ensures WellFormed(r[1..]) && r[0].0 !in Keys(r[1..])
  {
    assert Keys(r[1..]) == Keys(r)[1..];
  }

  /** In a well-formed object, assigning to a key it has changes that key's
      entry only, in place. */
  lemma {:induction false} AssignReplaces(r: Record, k: string, v: Value)
    requires WellFormed(r) && k in Keys(r)
    ensures |Assign(r, k, v)| == |r|
    ensures forall i :: 0 <= i < |r| ==> Assign(r, k, v)[i] == if r[i].0 == k then (k, v) else r[i]
  {
    var a := Assign(r, k, v);
    var tail := r[1..];
    WellFormedTail(r);
    if r[0].0 == k {
      assert a == [(k, v)] + tail;
      forall i | 0 < i < |r| ensures r[i].0 != k {
        assert Keys(tail)[i - 1] == r[i].0;
      }
    } else {
      KeysCons(r[0], tail);
      assert r == [r[0]] + tail;
      AssignReplaces(tail, k, v);
      assert a == [r[0]] + Assign(tail, k, v);
    }
  }

  /** Assigning keeps an object well formed; on an existing key only that
      key's entry changes, and a new key's entry is appended. */
  lemma AssignShape(r: Record, k: string, v: Value)
    requires WellFormed(r)
    ensures WellFormed(Assign(r, k, v))
    ensures k !in Keys(r) ==> Assign(r, k, v) == r + [(k, v)]
    ensures k in Keys(r) ==> |Assign(r, k, v)| == |r|
    ensures k in Keys(r) ==> forall i :: 0 <= i < |r| ==>
              Assign(r, k, v)[i] == if r[i].0 == k then (k, v) else r[i]
  {
    if k in Keys(r) {
      AssignReplaces(r, k, v);
    } else {
      AssignAppends(r, k, v);
    }
  }

  /** The object built by assigning the entries of `es` one after another,
      starting from `{}`. */
  function FromEntries(es: seq<Entry>): (r: Record)
    ensures WellFormed(r)
  {
    if es == [] then []
    else
      var n := |es| - 1;
      Assign(FromEntries(es[..n]), es[n].0, es[n].1)
  }

  /** Reference definition: the value of the last entry of `es` whose key
      is `k`, if there is one. */
  function LastValue(es: seq<Entry>, k: string): Option<Value> {
    if es == [] then None
    else if es[|es| - 1].0 == k then Some(es[|es| - 1].1)
    else LastValue(es[..|es| - 1], k)
  }

  /** Reference definition: `s` with every repeated element after its first
      occurrence removed. */
  function Dedup<T(==)>(s: seq<T>): seq<T> {
    if s == [] then []
    else
      var d := Dedup(s[..|s| - 1]);
      if s[|s| - 1] in d then d else d + [s[|s| - 1]]
  }

  /** Dedup keeps exactly the elements of `s`, each once. */
  lemma {:induction false} DedupContents<T>(s: seq<T>)
    ensures Distinct(Dedup(s))
    ensures forall x :: x in Dedup(s) <==> x in s
  {
    if s != [] {
      DedupContents(s[..|s| - 1]);
      assert s == s[..|s| - 1] + [s[|s| - 1]];
    }
  }

  /** Dedup leaves a sequence without repetitions unchanged. */
  lemma {:induction false} DedupDistinct<T>(s: seq<T>)
    requires Distinct(s)
    ensures Dedup(s) == s
  {
    if s != [] {
      var n := |s| - 1;
      DedupDistinct(s[..n]);
      assert s[n] !in s[..n];
      assert s == s[..n] + [s[n]];
    }
  }

  /** Building from entries enumerates each key once, at the position of its
      first entry. */
  lemma {:induction false} FromEntriesKeys(es: seq<Entry>)
    ensures Keys(FromEntries(es)) == Dedup(Keys(es))
  {
    if es != [] {
      var n := |es| - 1;
      FromEntriesKeys(es[..n]);
      assert Keys(es[..n]) == Keys(es)[..n];
    }
  }

  /** Building from entries keeps, for every key, the value of its last
      entry: a later entry overwrites an earlier one with the same key. */
  lemma {:induction false} FromEntriesLookup(es: seq<Entry>, k: string)
    ensures Lookup(FromEntries(es), k) == LastValue(es, k)
  {
    if es != [] {
      var n := |es| - 1;
      FromEntriesLookup(es[..n], k);
      AssignLookup(FromEntries(es[..n]), es[n].0, es[n].1);
    }
  }

  /** Entries with distinct keys build exactly themselves. */
  lemma {:induction false} FromEntriesDistinct(es: seq<Entry>)
    requires WellFormed(es)
    ensures FromEntries(es) == es
  {
    if es != [] {
      var n := |es| - 1;
      var init := es[..n];
      assert WellFormed(init) && es[n].0 !in Keys(init) by {
        KeysPrefix(es, n);
        DistinctLast(Keys(es));
      }
      var e := es[n];
      assert es == init + [e];
      assert FromEntries(init) == init by {
        FromEntriesDistinct(init);
      }
      AssignAppends(init, e.0, e.1);
    }
  }

  /** `LastValue` finds the entry at `i` when no later entry has its key. */
  lemma {:induction false} LastValueAt(es: seq<Entry>, i: nat)
    requires i < |es|
    requires forall m :: i < m < |es| ==> es[m].0 != es[i].0
    ensures LastValue(es, es[i].0) == Some(es[i].1)
  {
    if i < |es| - 1 {
      LastValueAt(es[..|es| - 1], i);
    }
  }

  /** `LastValue` is `None` exactly when no entry has the key. */
  lemma {:induction false} LastValueNone(es: seq<Entry>, k: string)
    ensures LastValue(es, k) == None <==> k !in Keys(es)
  {
    if es != [] {
      var n := |es| - 1;
      LastValueNone(es[..n], k);
      assert Keys(es) == Keys(es[..n]) + [es[n].0];
    }
  }
}
