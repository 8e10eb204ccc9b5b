/** Compiler options as PHP keeps them: an ordered array with string keys
    whose values are either one string or a list of strings. Assigning to a
    key that exists replaces its value where it stands; a new key goes to
    the end. `array_merge` with string keys is assignment of each entry of
    the second array in order. */
module CompilerOptions {

  import opened Errors

  datatype OptionValue = Scalar(text: string) | ListValue(items: seq<string>)

  type Options = seq<(string, OptionValue)>

  predicate DistinctKeys(opts: Options) {
    forall i, j :: 0 <= i < j < |opts| ==> opts[i].0 != opts[j].0
  }

  function Keys(opts: Options): (ks: seq<string>)
    ensures |ks| == |opts|
    ensures forall i :: 0 <= i < |opts| ==> ks[i] == opts[i].0
  {
    seq(|opts|, i requires 0 <= i < |opts| => opts[i].0)
  }

  /** Position of the first entry carrying `key`, if any. */
  function FindKey(opts: Options, key: string): (r: Option<nat>)
    ensures r.Some? ==> r.value < |opts| && opts[r.value].0 == key
    ensures r.None? ==> forall i :: 0 <= i < |opts| ==> opts[i].0 != key
    decreases |opts|
  {
    if |opts| == 0 then None
    else if opts[0].0 == key then Some(0)
    else match FindKey(opts[1..], key)
      case None =>
        assert forall i :: 1 <= i < |opts| ==> opts[i] == opts[1..][i - 1];
        None
      case Some(i) => Some(i + 1)
  }

  /** With distinct keys, an entry carrying the key is the one found. */
  lemma FindDistinct(opts: Options, key: string, i: nat)
    requires DistinctKeys(opts) && i < |opts| && opts[i].0 == key
    ensures FindKey(opts, key) == Some(i)
  {
  }

  /** `$opts[key] = value`. */
  function Assign(opts: Options, key: string, value: OptionValue): (r: Options)
    requires DistinctKeys(opts)
    ensures DistinctKeys(r)
    ensures key in Keys(opts) ==> |r| == |opts|
    ensures key in Keys(opts) ==>
              forall i :: 0 <= i < |opts| ==> r[i] == if opts[i].0 == key then (key, value) else opts[i]
    ensures key !in Keys(opts) ==> r == opts + [(key, value)]
  {
    match FindKey(opts, key)
    case Some(i) =>
      assert Keys(opts)[i] == key;
      var r := opts[i := (key, value)];
      assert forall j :: 0 <= j < |opts| ==> r[j].0 == opts[j].0;
      r
    case None =>
      AppendFresh(opts, key, value);
      opts + [(key, value)]
  }

  lemma AppendFresh(opts: Options, key: string, value: OptionValue)
    requires DistinctKeys(opts) && forall i :: 0 <= i < |opts| ==> opts[i].0 != key
    ensures key !in Keys(opts)
    ensures DistinctKeys(opts + [(key, value)])
  {
    var r := opts + [(key, value)];
    forall i, j | 0 <= i < j < |r| ensures r[i].0 != r[j].0 {
      if j == |opts| {
        assert r[i] == opts[i];
      }
    }
  }

  lemma DistinctTail(opts: Options)
    requires |opts| > 0 && DistinctKeys(opts)
    ensures DistinctKeys(opts[1..])
  {
    forall i, j | 0 <= i < j < |opts| - 1 ensures opts[1..][i].0 != opts[1..][j].0 {
      assert opts[1..][i] == opts[i + 1] && opts[1..][j] == opts[j + 1];
    }
  }

  /** `array_merge(opts, extra)` for string keys. */
  function Merge(opts: Options, extra: Options): (r: Options)
    requires DistinctKeys(opts)
    ensures DistinctKeys(r)
    decreases |extra|
  {
    if |extra| == 0 then opts
    else Merge(Assign(opts, extra[0].0, extra[0].1), extra[1..])
  }

  /** `$opts[key]`: the value stored under `key`, if any. */
  function Lookup(opts: Options, key: string): Option<OptionValue> {
    match FindKey(opts, key)
    case None => None
    case Some(i) => Some(opts[i].1)
  }

  /** After an assignment the key holds the new value; other keys keep theirs. */
  lemma AssignLookup(opts: Options, key: string, value: OptionValue, k: string)
    requires DistinctKeys(opts)
    ensures Lookup(Assign(opts, key, value), k) == if k == key then Some(value) else Lookup(opts, k)
  {
    if k == key {
      AssignedKeyFound(opts, key, value);
    } else {
      OtherKeyKept(opts, key, value, k);
    }
  }

  lemma AssignedKeyFound(opts: Options, key: string, value: OptionValue)
    requires DistinctKeys(opts)
    ensures Lookup(Assign(opts, key, value), key) == Some(value)
  {
    var r := Assign(opts, key, value);
    match FindKey(opts, key)
    case Some(i) =>
      assert Keys(opts)[i] == key;
      FindDistinct(r, key, i);
    case None =>
      AppendFresh(opts, key, value);
      FindDistinct(r, key, |opts|);
  }

  lemma OtherKeyKept(opts: Options, key: string, value: OptionValue, k: string)
    requires DistinctKeys(opts) && k != key
    ensures Lookup(Assign(opts, key, value), k) == Lookup(opts, k)
  {
    var r := Assign(opts, key, value);
    assert forall j :: 0 <= j < |opts| && opts[j].0 == k ==> r[j] == opts[j];
    match FindKey(opts, k)
    case Some(j) =>
      FindDistinct(r, k, j);
    case None =>
      assert forall w :: 0 <= w < |r| ==> r[w].0 != k;
  }

  /** `array_merge`: a key of the second array takes its value from there,
      any other key keeps its value from the first. */
  lemma {:induction false} MergeLookup(opts: Options, extra: Options, k: string)
    requires DistinctKeys(opts) && DistinctKeys(extra)
    ensures Lookup(Merge(opts, extra), k) == if Lookup(extra, k).Some? then Lookup(extra, k) else Lookup(opts, k)
    decreases |extra|
  {
    if |extra| > 0 {
      var a := Assign(opts, extra[0].0, extra[0].1);
      DistinctTail(extra);
      MergeLookup(a, extra[1..], k);
      AssignLookup(opts, extra[0].0, extra[0].1, k);
      if k == extra[0].0 {
        NotLaterKey(extra, k);
      } else {
        assert Lookup(extra, k) == Lookup(extra[1..], k) by {
          LookupTail(extra, k);
        }
      }
    }
  }

  /** Past a first entry with another key, the lookup continues in the rest. */
  lemma LookupTail(opts: Options, k: string)
    requires |opts| > 0 && opts[0].0 != k
    ensures Lookup(opts, k) == Lookup(opts[1..], k)
  {
  }

  /** `array_merge` keeps the first array's keys where they stand. */
  lemma {:induction false} MergeKeepsPositions(opts: Options, extra: Options)
    requires DistinctKeys(opts)
    ensures |Merge(opts, extra)| >= |opts|
    ensures forall i :: 0 <= i < |opts| ==> Merge(opts, extra)[i].0 == opts[i].0
    decreases |extra|
  {
    if |extra| > 0 {
      var a := Assign(opts, extra[0].0, extra[0].1);
      MergeKeepsPositions(a, extra[1..]);
      assert |a| >= |opts| && forall i :: 0 <= i < |opts| ==> a[i].0 == opts[i].0;
    }
  }

  /** Assigning a key no entry carries appends it. */
  lemma AssignNew(opts: Options, key: string, value: OptionValue)
    requires DistinctKeys(opts)
    requires forall i :: 0 <= i < |opts| ==> opts[i].0 != key
    ensures Assign(opts, key, value) == opts + [(key, value)]
  {
    assert key !in Keys(opts);
  }

  /** `array_merge([], extra)` is `extra` itself. */
  lemma MergeIntoEmpty(extra: Options)
    requires DistinctKeys(extra)
    ensures Merge([], extra) == extra
  {
    assert [] + extra == extra;
    MergeFresh([], extra);
  }

  /** Merging entries whose keys are all new appends them in order. */
  lemma {:induction false} MergeFresh(opts: Options, extra: Options)
    requires DistinctKeys(opts + extra)
    ensures DistinctKeys(opts)
    ensures Merge(opts, extra) == opts + extra
    decreases |extra|
  {
    assert DistinctKeys(opts) by {
      forall i, j | 0 <= i < j < |opts| ensures opts[i].0 != opts[j].0 {
        assert (opts + extra)[i] == opts[i] && (opts + extra)[j] == opts[j];
      }
    }
    if |extra| > 0 {
      var e := extra[0];
      assert forall i :: 0 <= i < |opts| ==> (opts + extra)[i] == opts[i];
      assert (opts + extra)[|opts|] == e;
      AssignNew(opts, e.0, e.1);
      assert (opts + [e]) + extra[1..] == opts + extra;
      MergeFresh(opts + [e], extra[1..]);
    } else {
      assert opts + extra == opts;
    }
  }

  /** In an array with distinct keys, the first entry's key occurs nowhere later. */
  lemma NotLaterKey(extra: Options, k: string)
    requires |extra| > 0 && DistinctKeys(extra) && extra[0].0 == k
    ensures Lookup(extra[1..], k).None?
  {
    forall i | 0 <= i < |extra[1..]| ensures extra[1..][i].0 != k {
      assert extra[1..][i] == extra[i + 1];
    }
    LookupAbsent(extra[1..], k);
  }

  /** A key no entry carries is not found. */
  lemma LookupAbsent(opts: Options, k: string)
    requires forall i :: 0 <= i < |opts| ==> opts[i].0 != k
    ensures Lookup(opts, k).None?
  {
  }

  /** `(array) $value`: the strings one option contributes, in order. */
  function Values(v: OptionValue): seq<string> {
    match v
    case Scalar(t) => [t]
    case ListValue(items) => items
  }

  /** Every (key, single value) pair in option order, a list value giving one
      pair per element. */
  function Pairs(opts: Options): (r: seq<(string, string)>)
    decreases |opts|
  {
    if |opts| == 0 then []
    else seq(|Values(opts[0].1)|, i requires 0 <= i < |Values(opts[0].1)| => (opts[0].0, Values(opts[0].1)[i]))
         + Pairs(opts[1..])
  }
}
