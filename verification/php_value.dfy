/** PHP values as the option store holds them: strings, null, and ordered
    arrays whose keys are integers or (non-numeric) strings. Arrays keep
    insertion order; assigning to an existing key updates it in place,
    assigning to a new key appends. */
module PhpValue {

  import opened Opt

  datatype Key = Idx(n: int) | Name(s: string)

  datatype Value = Null | Str(s: string) | Arr(entries: seq<Entry>)

  datatype Entry = Entry(key: Key, val: Value)

  /** PHP truthiness of a string: only "" and "0" are false. */
  predicate FalsyString(s: string) {
    s == "" || s == "0"
  }

  /** PHP's `empty($v)`, which is also `!$v`: null, "", "0" and the empty array. */
  predicate Empty(v: Value) {
    match v
    case Null => true
    case Str(s) => FalsyString(s)
    case Arr(es) => |es| == 0
  }

  /** The test `empty($v) && strlen($v) == 0` used to drop sub-keys. `strlen`
      of null is 0; `strlen` of an array raises a TypeError, which is `None`
      here (it is only reached for the empty array, since `empty` guards it). */
  function ZeroLength(v: Value): (r: Option<bool>)
    ensures r.None? <==> v == Arr([])
    ensures r == Some(true) <==> v == Null || v == Str("")
  {
    match v
    case Null => Some(true)
    case Str(s) => Some(s == "")
    case Arr(es) => if |es| == 0 then None else Some(false)
  }

  /** The keys of an array, in order. */
  function Keys(es: seq<Entry>): (ks: seq<Key>)
    ensures |ks| == |es|
    ensures forall i :: 0 <= i < |es| ==> ks[i] == es[i].key
  {
    seq(|es|, i requires 0 <= i < |es| => es[i].key)
  }

  /** PHP arrays never hold a key twice. */
  predicate UniqueKeys(es: seq<Entry>) {
    |es| == 0 || (es[0].key !in Keys(es[1..]) && UniqueKeys(es[1..]))
  }

  /** `$a[$k]` for reading: the stored value, or null when the key is absent. */
  function Get(es: seq<Entry>, k: Key): (v: Value)
    ensures k !in Keys(es) ==> v == Null
  {
    if |es| == 0 then Null
    else if es[0].key == k then es[0].val
    else
      assert Keys(es) == [es[0].key] + Keys(es[1..]);
      Get(es[1..], k)
  }

  /** `isset($a[$k])`: the key is present and its value is not null. */
  predicate IsSet(es: seq<Entry>, k: Key) {
    Get(es, k) != Null
  }

  /** `$a[$k] = $v`: update in place when present, append otherwise. */
  function Put(es: seq<Entry>, k: Key, v: Value): (r: seq<Entry>)
    ensures Keys(r) == if k in Keys(es) then Keys(es) else Keys(es) + [k]
    ensures Get(r, k) == v
    ensures forall k' :: k' != k ==> Get(r, k') == Get(es, k')
    ensures UniqueKeys(es) ==> UniqueKeys(r)
  {
    if |es| == 0 then
      ConsFacts(Entry(k, v), []);
      [Entry(k, v)]
    else
      ConsFacts(es[0], es[1..]);
      assert [es[0]] + es[1..] == es;
      if es[0].key == k then
        ConsFacts(Entry(k, v), es[1..]);
        [Entry(k, v)] + es[1..]
      else
        var rest := Put(es[1..], k, v);
        ConsFacts(es[0], rest);
        [es[0]] + rest
  }

  /** `unset($a[$k])`. */
  function Unset(es: seq<Entry>, k: Key): (r: seq<Entry>)
    ensures k !in Keys(r)
    ensures forall k' :: k' != k ==> (k' in Keys(r) <==> k' in Keys(es))
    ensures forall k' :: k' != k ==> Get(r, k') == Get(es, k')
  {
    if |es| == 0 then []
    else
      var rest := Unset(es[1..], k);
      ConsFacts(es[0], es[1..]);
      assert [es[0]] + es[1..] == es;
      if es[0].key == k then rest
      else
        ConsFacts(es[0], rest);
        [es[0]] + rest
  }

  lemma {:induction false} UnsetUnique(es: seq<Entry>, k: Key)
    requires UniqueKeys(es)
    ensures UniqueKeys(Unset(es, k))
    decreases |es|
  {
    if |es| > 0 {
      ConsFacts(es[0], es[1..]);
      assert [es[0]] + es[1..] == es;
      UnsetUnique(es[1..], k);
      if es[0].key != k {
        ConsFacts(es[0], Unset(es[1..], k));
      }
    }
  }

  /** How keys, lookups and uniqueness see an array built by prepending an entry. */
  lemma {:induction false} ConsFacts(e: Entry, es: seq<Entry>)
    ensures Keys([e] + es) == [e.key] + Keys(es)
    ensures forall k :: Get([e] + es, k) == if e.key == k then e.val else Get(es, k)
    ensures UniqueKeys([e] + es) <==> e.key !in Keys(es) && UniqueKeys(es)
  {
    assert ([e] + es)[1..] == es;
  }

  /** In an array with unique keys, the entry at each position is what a
      lookup of its key finds. */
  lemma {:induction false} GetAt(es: seq<Entry>, i: int)
    requires UniqueKeys(es)
    requires 0 <= i < |es|
    ensures Get(es, es[i].key) == es[i].val
    decreases |es|
  {
    ConsFacts(es[0], es[1..]);
    assert [es[0]] + es[1..] == es;
    if i > 0 {
      assert es[i] == es[1..][i - 1];
      assert es[i].key in Keys(es[1..]);
      GetAt(es[1..], i - 1);
    }
  }

  /** Unique keys: two positions never hold the same key. */
  lemma {:induction false} DistinctKeys(es: seq<Entry>, i: int, j: int)
    requires UniqueKeys(es)
    requires 0 <= i < |es| && 0 <= j < |es| && i != j
    ensures es[i].key != es[j].key
    decreases |es|
  {
    if i == 0 {
      assert es[j] == es[1..][j - 1];
      assert es[j].key in Keys(es[1..]);
    } else if j == 0 {
      assert es[i] == es[1..][i - 1];
      assert es[i].key in Keys(es[1..]);
    } else {
      assert es[i] == es[1..][i - 1];
      assert es[j] == es[1..][j - 1];
      DistinctKeys(es[1..], i - 1, j - 1);
    }
  }

  /** A present key sits at some position. */
  lemma {:induction false} KeyIndex(es: seq<Entry>, k: Key) returns (i: int)
    requires k in Keys(es)
    ensures 0 <= i < |es| && es[i].key == k
    ensures UniqueKeys(es) ==> es[i].val == Get(es, k)
  {
    i :| 0 <= i < |es| && Keys(es)[i] == k;
    if UniqueKeys(es) {
      GetAt(es, i);
    }
  }

  /** Unsetting a key that sits at position `t` cuts that one entry out. */
  lemma {:induction false} UnsetAt(es: seq<Entry>, t: int)
    requires UniqueKeys(es)
    requires 0 <= t < |es|
    ensures Unset(es, es[t].key) == es[..t] + es[t + 1..]
    decreases |es|
  {
    var k := es[t].key;
    if t == 0 {
      UnsetAbsent(es[1..], k);
      assert es[..0] + es[1..] == es[1..];
    } else {
      var tail := es[1..];
      assert tail[t - 1] == es[t];
      DistinctKeys(es, 0, t);
      UnsetAt(tail, t - 1);
      assert es[..t] == [es[0]] + tail[..t - 1];
      assert es[t + 1..] == tail[t..];
      calc {
        Unset(es, k);
        [es[0]] + Unset(tail, k);
        [es[0]] + (tail[..t - 1] + tail[t..]);
        { ConcatAssoc([es[0]], tail[..t - 1], tail[t..]); }
        ([es[0]] + tail[..t - 1]) + tail[t..];
      }
    }
  }

  lemma {:induction false} ConcatAssoc<T>(a: seq<T>, b: seq<T>, c: seq<T>)
    ensures (a + b) + c == a + (b + c)
  {
  }

  /** Unsetting an absent key changes nothing. */
  lemma {:induction false} UnsetAbsent(es: seq<Entry>, k: Key)
    requires k !in Keys(es)
    ensures Unset(es, k) == es
    decreases |es|
  {
    if |es| > 0 {
      ConsFacts(es[0], es[1..]);
      assert [es[0]] + es[1..] == es;
      UnsetAbsent(es[1..], k);
    }
  }

  /** Some value of the array is truthy: the `$has_value` loops of the source. */
  predicate AnyTruthy(es: seq<Entry>) {
    exists i :: 0 <= i < |es| && !Empty(es[i].val)
  }

  /** In an array with unique keys, some value is truthy exactly when a
      lookup of some key finds a truthy value. */
  lemma {:induction false} TruthyByKey(es: seq<Entry>)
    requires UniqueKeys(es)
    ensures AnyTruthy(es) <==> exists k :: !Empty(Get(es, k))
  {
    if AnyTruthy(es) {
      var i :| 0 <= i < |es| && !Empty(es[i].val);
      GetAt(es, i);
    }
    if exists k :: !Empty(Get(es, k)) {
      var k :| !Empty(Get(es, k));
      var i := KeyIndex(es, k);
    }
  }

  /** `array_values`: the same values in the same order, keyed 0..n-1. */
  function Reindex(es: seq<Entry>): (r: seq<Entry>)
    ensures |r| == |es|
    ensures forall i :: 0 <= i < |r| ==> r[i] == Entry(Idx(i), es[i].val)
  {
    seq(|es|, i requires 0 <= i < |es| => Entry(Idx(i), es[i].val))
  }
  /** Entries keyed `off`, `off + 1`, ... in order never repeat a key. */
  lemma {:induction false} NumberedUnique(es: seq<Entry>, off: int)
    requires forall i :: 0 <= i < |es| ==> es[i].key == Idx(off + i)
    ensures UniqueKeys(es)
    decreases |es|
  {
    if |es| > 0 {
      NumberedUnique(es[1..], off + 1);
      forall i | 0 <= i < |es| - 1 ensures Keys(es[1..])[i] != es[0].key {
        assert es[1..][i].key == Idx(off + 1 + i);
      }
    }
  }

  /** What `array_values` promises a reader: the result is a list keyed
      exactly by the positions 0..n-1, and position `i` holds the input's
      `i`-th value. */
  lemma {:induction false} ReindexLookup(es: seq<Entry>)
    ensures UniqueKeys(Reindex(es))
    ensures forall i :: 0 <= i < |es| ==> Get(Reindex(es), Idx(i)) == es[i].val
    ensures forall k :: k in Keys(Reindex(es)) ==> k.Idx? && 0 <= k.n < |es|
    ensures forall n :: 0 <= n < |es| ==> Idx(n) in Keys(Reindex(es))
  {
    var r := Reindex(es);
    NumberedUnique(r, 0);
    forall i | 0 <= i < |es| ensures Get(r, Idx(i)) == es[i].val && Idx(i) in Keys(r) {
      GetAt(r, i);
      assert Keys(r)[i] == Idx(i);
    }
  }


  /** The PHP string form of a key, as produced by concatenation `'x' . $key`. */
  function KeyText(k: Key): string {
    match k
    case Idx(n) => IntText(n)
    case Name(s) => s
  }

  function IntText(n: int): (r: string)
    ensures |r| > 0
  {
    if n < 0 then "-" + NatText(-n) else NatText(n)
  }

  function NatText(n: nat): (r: string)
    ensures |r| > 0
    ensures forall i :: 0 <= i < |r| ==> '0' <= r[i] <= '9'
  {
    var d := [(48 + n % 10) as char];
    if n < 10 then d else NatText(n / 10) + d
  }

  /** The string a scalar reads as in a string function: null reads as "". */
  function ScalarText(v: Value): string
    requires !v.Arr?
  {
    if v.Str? then v.s else ""
  }
}
