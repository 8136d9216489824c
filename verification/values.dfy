/** PHP values as the client handles them: the JSON-decoded replies of the
    server (decoded as associative arrays, so JSON objects and lists are both
    ordered arrays) and the arguments it sends, which may also hold element
    handles. Floating-point numbers are not modelled. */
module Values {
  import opened Wrappers
  import opened Php

  /** A PHP array key. */
  datatype Key = IntKey(i: int) | StrKey(s: string)

  /** The identity of a WebElement: the session path it was created under,
      the opaque id Selenium assigned, and the element path derived from both. */
  datatype Handle = Handle(sessionPath: string, id: string, elementPath: string)

  /** A PHP value: a scalar, an ordered array, or a WebElement object. */
  datatype Value =
    | Null
    | Bool(b: bool)
    | Int(i: int)
    | Str(s: string)
    | Arr(entries: seq<(Key, Value)>)
    | Elem(handle: Handle)

  /** The keys of an ordered array, in order. */
  function KeysOf(entries: seq<(Key, Value)>): (ks: seq<Key>)
    ensures |ks| == |entries|
    ensures forall i :: 0 <= i < |entries| ==> ks[i] == entries[i].0
  {
    seq(|entries|, i requires 0 <= i < |entries| => entries[i].0)
  }

  /** Every PHP array has pairwise distinct keys. */
  predicate UniqueKeys(entries: seq<(Key, Value)>) {
    forall i, j :: 0 <= i < j < |entries| ==> entries[i].0 != entries[j].0
  }

  /** `k` is a key of the array. */
  predicate HasKey(entries: seq<(Key, Value)>, k: Key) {
    exists i :: 0 <= i < |entries| && entries[i].0 == k
  }

  /** The value stored under `k` (the first entry with that key). */
  function Lookup(entries: seq<(Key, Value)>, k: Key): (r: Option<Value>)
    ensures r.Some? <==> HasKey(entries, k)
    ensures r.Some? ==> exists i :: 0 <= i < |entries| && entries[i] == (k, r.value)
  {
    if entries == [] then None
    else if entries[0].0 == k then Some(entries[0].1)
    else
      var r := Lookup(entries[1..], k);
      assert HasKey(entries, k) <==> HasKey(entries[1..], k) by {
        if HasKey(entries, k) {
          var i :| 0 <= i < |entries| && entries[i].0 == k;
          assert entries[1..][i - 1].0 == k;
        }
        if HasKey(entries[1..], k) {
          var i :| 0 <= i < |entries[1..]| && entries[1..][i].0 == k;
          assert entries[i + 1].0 == k;
        }
      }
      if r.Some? then
        assert exists i :: 0 <= i < |entries| && entries[i] == (k, r.value) by {
          var i :| 0 <= i < |entries[1..]| && entries[1..][i] == (k, r.value);
          assert entries[i + 1] == (k, r.value);
        }
        r
      else r
  }

  /** `$v[$k]` read under isset(): Null when `v` is not an array, when the key
      is missing, and when the stored value is null. */
  function Get(v: Value, k: string): (r: Value)
    ensures !v.Arr? ==> r == Null
    ensures v.Arr? && !HasKey(v.entries, StrKey(k)) ==> r == Null
    ensures v.Arr? && HasKey(v.entries, StrKey(k)) ==> Some(r) == Lookup(v.entries, StrKey(k))
  {
    match v
    case Arr(es) => Lookup(es, StrKey(k)).GetOr(Null)
    case _ => Null
  }

  /** isset($v[$k]) */
  predicate IsSet(v: Value, k: string) {
    Get(v, k) != Null
  }

  /** PHP's empty(): null, false, 0, "", "0" and the empty array. */
  predicate IsEmpty(v: Value) {
    match v
    case Null => true
    case Bool(b) => !b
    case Int(i) => i == 0
    case Str(s) => IsEmptyString(s)
    case Arr(es) => es == []
    case Elem(_) => false
  }

  /** PHP's boolean conversion (`if ($v)`, `!$v`, `$v ?: ...`). */
  predicate Truthy(v: Value) {
    !IsEmpty(v)
  }

  /** PHP's (string) conversion. An element object has no string form in PHP
      (converting one is a fatal error); it is given the empty string here. */
  function ToString(v: Value): string {
    match v
    case Null => ""
    case Bool(b) => if b then "1" else ""
    case Int(i) => IntToString(i)
    case Str(s) => s
    case Arr(_) => "Array"
    case Elem(_) => ""
  }

  /** PHP's (int) conversion. */
  function ToInt(v: Value): int {
    match v
    case Null => 0
    case Bool(b) => if b then 1 else 0
    case Int(i) => i
    case Str(s) => StringToInt(s)
    case Arr(es) => if es == [] then 0 else 1
    case Elem(_) => 1
  }

  /** PHP 5's loose comparison `$v == 0`: null and false equal 0, and an array
      or object never equals 0. A string is compared by its (int) cast, which
      agrees with PHP except for numeric strings with a fraction or exponent
      ("0.5"), which PHP compares as numbers. */
  predicate LooseEqualsZero(v: Value) {
    match v
    case Null => true
    case Bool(b) => !b
    case Int(i) => i == 0
    case Str(s) => StringToInt(s) == 0
    case Arr(_) => false
    case Elem(_) => false
  }

  /** A string-keyed array literal, e.g. `array('using' => ..., 'value' => ...)`. */
  function Assoc(entries: seq<(string, Value)>): (v: Value)
    ensures v.Arr? && |v.entries| == |entries|
    ensures forall i :: 0 <= i < |entries| ==> v.entries[i] == (StrKey(entries[i].0), entries[i].1)
  {
    Arr(seq(|entries|, i requires 0 <= i < |entries| => (StrKey(entries[i].0), entries[i].1)))
  }

  // ---------------------------------------------------------------------------
  // The WebElement constructor
  // ---------------------------------------------------------------------------

  /** `new WebElement($server, $sessionPath, $id)`: the id is kept as a string
      and the element path is the session path, "/element/" and that string. */
  function NewHandle(sessionPath: string, id: Value): (h: Handle)
    ensures h.sessionPath == sessionPath && h.id == ToString(id)
    ensures h.elementPath == sessionPath + "/element/" + h.id
  {
    var sid := ToString(id);
    Handle(sessionPath, sid, sessionPath + "/element/" + sid)
  }

  /** A well-formed handle: its element path is the one the constructor builds. */
  predicate ValidHandle(h: Handle) {
    h.elementPath == h.sessionPath + "/element/" + h.id
  }

  /** Under one session path, the element path determines the Selenium id, so
      handles built from different ids never share a path. */
  lemma ElementPathDeterminesId(sessionPath: string, a: Value, b: Value)
    ensures NewHandle(sessionPath, a).elementPath == NewHandle(sessionPath, b).elementPath
      <==> ToString(a) == ToString(b)
  {
    var prefix := sessionPath + "/element/";
    var pa := NewHandle(sessionPath, a).elementPath;
    var pb := NewHandle(sessionPath, b).elementPath;
    if pa == pb {
      assert pa[|prefix|..] == ToString(a);
      assert pb[|prefix|..] == ToString(b);
    }
  }

  // ---------------------------------------------------------------------------
  // array_merge()
  // ---------------------------------------------------------------------------

  /** The number of integer keys; array_merge renumbers them 0, 1, ... so this
      is also the next integer key it hands out. */
  function IntKeyCount(entries: seq<(Key, Value)>): nat {
    if entries == [] then 0
    else (if entries[0].0.IntKey? then 1 else 0) + IntKeyCount(entries[1..])
  }

  /** `$acc[$k] = $v` for a string key: overwrite in place, or append. */
  function Put(acc: seq<(Key, Value)>, k: Key, v: Value): (r: seq<(Key, Value)>)
    ensures |r| >= |acc|
    ensures forall i :: 0 <= i < |acc| ==> r[i].0 == acc[i].0
  {
    if acc == [] then [(k, v)]
    else if acc[0].0 == k then [(k, v)] + acc[1..]
    else [acc[0]] + Put(acc[1..], k, v)
  }

  /** After `$acc[$k] = $v`, the key `k` holds `v` and every other key holds
      what it held before. */
  lemma {:induction false} PutLookup(acc: seq<(Key, Value)>, k: Key, v: Value, other: Key)
    ensures Lookup(Put(acc, k, v), k) == Some(v)
    ensures other != k ==> Lookup(Put(acc, k, v), other) == Lookup(acc, other)
    decreases |acc|
  {
    if acc != [] && acc[0].0 != k {
      PutLookup(acc[1..], k, v, other);
    }
  }

  /** One step of array_merge: integer keys are appended under the next number,
      string keys are assigned. */
  function MergeEntry(acc: seq<(Key, Value)>, e: (Key, Value)): seq<(Key, Value)> {
    if e.0.IntKey? then acc + [(IntKey(IntKeyCount(acc)), e.1)] else Put(acc, e.0, e.1)
  }

  function MergeInto(acc: seq<(Key, Value)>, src: seq<(Key, Value)>): seq<(Key, Value)>
    decreases |src|
  {
    if src == [] then acc else MergeInto(MergeEntry(acc, src[0]), src[1..])
  }

  /** array_merge($a, $b) */
  function ArrayMerge(a: seq<(Key, Value)>, b: seq<(Key, Value)>): seq<(Key, Value)> {
    MergeInto(MergeInto([], a), b)
  }

  /** Merging never drops or reorders the keys already present. */
  lemma {:induction false} MergeIntoKeepsPrefix(acc: seq<(Key, Value)>, src: seq<(Key, Value)>)
    ensures |MergeInto(acc, src)| >= |acc|
    ensures forall i :: 0 <= i < |acc| ==> MergeInto(acc, src)[i].0 == acc[i].0
    decreases |src|
  {
    if src != [] {
      var next := MergeEntry(acc, src[0]);
      MergeIntoKeepsPrefix(next, src[1..]);
    }
  }

  /** After a merge, a string key holds the value the source array gave it,
      or else the value it already had. */
  lemma {:induction false} MergeIntoLookup(acc: seq<(Key, Value)>, src: seq<(Key, Value)>, k: string)
    requires UniqueKeys(src)
    ensures Lookup(MergeInto(acc, src), StrKey(k))
      == if HasKey(src, StrKey(k)) then Lookup(src, StrKey(k)) else Lookup(acc, StrKey(k))
    decreases |src|
  {
    if src != [] {
      var next := MergeEntry(acc, src[0]);
      var rest := src[1..];
      assert UniqueKeys(rest);
      MergeIntoLookup(next, rest, k);
      assert HasKey(src, StrKey(k)) <==> src[0].0 == StrKey(k) || HasKey(rest, StrKey(k)) by {
        if HasKey(src, StrKey(k)) && src[0].0 != StrKey(k) {
          var i :| 0 <= i < |src| && src[i].0 == StrKey(k);
          assert rest[i - 1].0 == StrKey(k);
        }
        if HasKey(rest, StrKey(k)) {
          var i :| 0 <= i < |rest| && rest[i].0 == StrKey(k);
          assert src[i + 1].0 == StrKey(k);
        }
      }
      if src[0].0 == StrKey(k) {
        PutLookup(acc, src[0].0, src[0].1, StrKey(k));
        forall i | 0 <= i < |rest|
          ensures rest[i].0 != StrKey(k)
        {
          assert rest[i] == src[i + 1];
        }
      } else if src[0].0.StrKey? {
        PutLookup(acc, src[0].0, src[0].1, StrKey(k));
      } else {
        var appended := [(IntKey(IntKeyCount(acc)), src[0].1)];
        assert next == acc + appended;
        LookupAppendOther(acc, appended, StrKey(k));
      }
    }
  }

  /** Appending entries with other keys does not change a lookup. */
  lemma {:induction false} LookupAppendOther(acc: seq<(Key, Value)>, extra: seq<(Key, Value)>, k: Key)
    requires !HasKey(extra, k)
    ensures Lookup(acc + extra, k) == Lookup(acc, k)
    decreases |acc|
  {
    if acc == [] {
      assert acc + extra == extra;
    } else {
      assert (acc + extra)[1..] == acc[1..] + extra;
      LookupAppendOther(acc[1..], extra, k);
    }
  }

  /** array_merge($a, $b) for string keys: `b` overrides `a` key by key, and
      the keys of `a` keep their places at the front. */
  lemma ArrayMergeOverrides(a: seq<(Key, Value)>, b: seq<(Key, Value)>, k: string)
    requires UniqueKeys(a) && UniqueKeys(b)
    ensures Lookup(ArrayMerge(a, b), StrKey(k))
      == if HasKey(b, StrKey(k)) then Lookup(b, StrKey(k)) else Lookup(a, StrKey(k))
  {
    MergeIntoLookup(MergeInto([], a), b, k);
    MergeIntoLookup([], a, k);
  }

  /** Merging a string-keyed array into the empty array copies it. */
  lemma {:induction false} MergeIntoStringKeys(acc: seq<(Key, Value)>, src: seq<(Key, Value)>)
    requires forall i :: 0 <= i < |src| ==> src[i].0.StrKey?
    requires UniqueKeys(acc + src)
    ensures MergeInto(acc, src) == acc + src
    decreases |src|
  {
    if src != [] {
      FirstOfRestIsNew(acc, src);
      PutNew(acc, src[0].0, src[0].1);
      var next := acc + [src[0]];
      assert MergeEntry(acc, src[0]) == next;
      assert next + src[1..] == acc + src;
      MergeIntoStringKeys(next, src[1..]);
      assert MergeInto(acc, src) == MergeInto(next, src[1..]);
    }
  }

  /** In an array with distinct keys, the key after a prefix is not in that prefix. */
  lemma FirstOfRestIsNew(acc: seq<(Key, Value)>, src: seq<(Key, Value)>)
    requires src != [] && UniqueKeys(acc + src)
    ensures !HasKey(acc, src[0].0)
  {
    forall i | 0 <= i < |acc|
      ensures acc[i].0 != src[0].0
    {
      assert (acc + src)[i] == acc[i] && (acc + src)[|acc|] == src[0];
    }
  }

  /** Assigning a key the array does not have appends it. */
  lemma {:induction false} PutNew(acc: seq<(Key, Value)>, k: Key, v: Value)
    requires !HasKey(acc, k)
    ensures Put(acc, k, v) == acc + [(k, v)]
    decreases |acc|
  {
    if acc != [] {
      var tail := acc[1..];
      assert acc[0].0 != k by {
        assert acc[0] == acc[0];
      }
      forall i | 0 <= i < |tail|
        ensures tail[i].0 != k
      {
        assert tail[i] == acc[i + 1];
      }
      PutNew(tail, k, v);
      calc {
        Put(acc, k, v);
        [acc[0]] + Put(tail, k, v);
        [acc[0]] + (tail + [(k, v)]);
        { assert acc == [acc[0]] + tail; }
        acc + [(k, v)];
      }
    }
  }

  /** With string keys only, array_merge keeps the first array's keys in order
      at the front of the result. */
  lemma ArrayMergeKeepsOrder(a: seq<(Key, Value)>, b: seq<(Key, Value)>)
    requires forall i :: 0 <= i < |a| ==> a[i].0.StrKey?
    requires UniqueKeys(a)
    ensures |ArrayMerge(a, b)| >= |a|
    ensures forall i :: 0 <= i < |a| ==> ArrayMerge(a, b)[i].0 == a[i].0
  {
    assert [] + a == a;
    MergeIntoStringKeys([], a);
    MergeIntoKeepsPrefix(a, b);
  }
}
