/**
 * The JSON value wrapper the scene serialiser is written against: a value is
 * null, a boolean, an integer, a double, a string, an array or an object,
 * and an object keeps its members in insertion order and may hold the same
 * key more than once. The accessors never fail: a missing key, a value of
 * the wrong type or a non-object gives a default.
 */
module Json {
  import opened Wrappers
  import opened Seqs

  const INT32_MIN: int := -0x8000_0000
  const INT32_MAX: int := 0x7FFF_FFFF

  /** A double, kept as its IEEE 754 bit pattern; bit pattern 0 is +0.0. */
  datatype DoubleBits = DoubleBits(bits: bv64)

  /** Not NaN and not an infinity: the 11 exponent bits are not all set. */
  predicate IsFinite(d: DoubleBits)
  {
    (d.bits >> 52) & 0x7FF != 0x7FF
  }

  const ZERO_DOUBLE := DoubleBits(0)

  datatype Value =
    | Null
    | Bool(b: bool)
    | Int(i: int)
    | Double(d: DoubleBits)
    | String(s: string)
    | Array(items: seq<Value>)
    | Object(members: seq<Member>)

  datatype Member = Member(key: string, value: Value)

  /** What a default-constructed value holds. */
  const EMPTY_OBJECT: Value := Object([])

  /** Number of members of `ms` whose key is `k`. */
  function KeyCount(ms: seq<Member>, k: string): nat
  {
    if ms == [] then 0 else (if ms[0].key == k then 1 else 0) + KeyCount(ms[1..], k)
  }

  /** Index of the first member with key `k`, the one every lookup reaches. */
  function FindIndex(ms: seq<Member>, k: string): (r: Option<nat>)
    ensures r.Some? ==> r.value < |ms| && ms[r.value].key == k
    ensures r.Some? ==> forall i :: 0 <= i < r.value ==> ms[i].key != k
    ensures r.None? <==> forall i :: 0 <= i < |ms| ==> ms[i].key != k
  {
    if ms == [] then None
    else if ms[0].key == k then Some(0)
    else match FindIndex(ms[1..], k)
      case Some(i) => Some(i + 1)
      case None => None
  }

  function HasMember(j: Value, k: string): (r: bool)
    ensures r <==> j.Object? && exists i :: 0 <= i < |j.members| && j.members[i].key == k
  {
    j.Object? && FindIndex(j.members, k).Some?
  }

  /** The value of the first member named `k`; an empty object when there is none or `j` is not an object. */
  function GetMember(j: Value, k: string): (r: Value)
    ensures !HasMember(j, k) ==> r == EMPTY_OBJECT
    ensures HasMember(j, k) ==> r < j
  {
    if j.Object? then
      match FindIndex(j.members, k)
      case Some(i) => j.members[i].value
      case None => EMPTY_OBJECT
    else EMPTY_OBJECT
  }

  predicate IsArray(j: Value) { j.Array? }

  predicate IsInt(j: Value) { j.Int? && INT32_MIN <= j.i <= INT32_MAX }

  function GetString(j: Value): (r: string)
    ensures j.String? ==> r == j.s
    ensures !j.String? ==> r == ""
  {
    if j.String? then j.s else ""
  }

  function GetBool(j: Value): (r: bool)
    ensures r <==> j == Bool(true)
  {
    if j.Bool? then j.b else false
  }

  /** A 32-bit integer; 0 for anything else, including integers outside the 32-bit range. */
  function GetInt(j: Value): (r: int)
    ensures INT32_MIN <= r <= INT32_MAX
    ensures IsInt(j) ==> r == j.i
    ensures !IsInt(j) ==> r == 0
  {
    if IsInt(j) then j.i else 0
  }

  function GetDouble(j: Value): (r: DoubleBits)
    ensures j.Double? ==> r == j.d
    ensures !j.Double? ==> r == ZERO_DOUBLE
  {
    if j.Double? then j.d else ZERO_DOUBLE
  }

  /** The object with its first member named `k` removed; anything else unchanged. */
  function WithoutMember(j: Value, k: string): (r: Value)
    ensures !HasMember(j, k) ==> r == j
    ensures HasMember(j, k) ==> r.Object? && |r.members| == |j.members| - 1
  {
    if j.Object? then
      match FindIndex(j.members, k)
      case Some(i) => Object(SwapRemove(j.members, i))
      case None => j
    else j
  }

  /**
   * The object with member `k: v` appended; without `allowDuplicates` the
   * first member named `k` is removed beforehand. A non-object is unchanged.
   */
  function WithMember(j: Value, k: string, v: Value, allowDuplicates: bool): (r: Value)
    ensures !j.Object? ==> r == j
    ensures j.Object? ==> r.Object? && |r.members| > 0 && r.members[|r.members| - 1] == Member(k, v)
  {
    if !j.Object? then j
    else
      var base := if allowDuplicates then j else WithoutMember(j, k);
      Object(base.members + [Member(k, v)])
  }

  /** The array with a copy of `v` appended; a non-array is unchanged. */
  function PushedBack(j: Value, v: Value): (r: Value)
    ensures !j.Array? ==> r == j
    ensures j.Array? ==> r.Array? && |r.items| == |j.items| + 1 && r.items[..|j.items|] == j.items && r.items[|j.items|] == v
  {
    if j.Array? then Array(j.items + [v]) else j
  }

  /** Element `idx` of an array, an empty object for a non-array; the index is not bounds-checked. */
  function Index(j: Value, idx: int): (r: Value)
    requires j.Array? ==> 0 <= idx < |j.items|
    ensures !j.Array? ==> r == EMPTY_OBJECT
    ensures j.Array? ==> r == j.items[idx] && r in j.items
  {
    if j.Array? then j.items[idx] else EMPTY_OBJECT
  }

  /** JSON text: the compact text that writing a value produces, or text that does not parse. */
  datatype JsonText = Written(doc: Value) | Malformed(raw: string)

  /**
   * A value the default writer can put out in full: every double in it is
   * finite. The writer fails on NaN and the infinities and leaves the text
   * cut off where it stopped.
   */
  predicate Writable(j: Value)
  {
    match j
    case Double(d) => IsFinite(d)
    case Array(items) => forall i :: 0 <= i < |items| ==> Writable(items[i])
    case Object(ms) => forall i :: 0 <= i < |ms| ==> Writable(ms[i].value)
    case _ => true
  }

  /** Compact writing: the whole value, or cut-off text when a double is not finite (the partial text is not modelled). */
  function Write(j: Value): (r: JsonText)
    ensures r.Written? <==> Writable(j)
    ensures r.Written? ==> r.doc == j
  {
    if Writable(j) then Written(j) else Malformed("")
  }

  /** Parsing; text that does not parse gives an empty object. */
  function Parse(t: JsonText): (r: Value)
    ensures t.Malformed? ==> r == EMPTY_OBJECT
  {
    match t
    case Written(v) => v
    case Malformed(_) => EMPTY_OBJECT
  }

  lemma {:induction false} KeyCountSplit(a: seq<Member>, b: seq<Member>, k: string)
    ensures KeyCount(a + b, k) == KeyCount(a, k) + KeyCount(b, k)
    decreases |a|
  {
    if a == [] {
      assert a + b == b;
    } else {
      assert (a + b)[1..] == a[1..] + b;
      KeyCountSplit(a[1..], b, k);
    }
  }

  lemma {:induction false} KeyCountPositive(ms: seq<Member>, k: string)
    ensures KeyCount(ms, k) > 0 <==> exists i :: 0 <= i < |ms| && ms[i].key == k
    decreases |ms|
  {
    if ms != [] {
      KeyCountPositive(ms[1..], k);
      if ms[0].key != k && exists i :: 0 <= i < |ms| && ms[i].key == k {
        var i :| 0 <= i < |ms| && ms[i].key == k;
        assert ms[1..][i - 1].key == k;
      }
      if exists i :: 0 <= i < |ms[1..]| && ms[1..][i].key == k {
        var i :| 0 <= i < |ms[1..]| && ms[1..][i].key == k;
        assert ms[i + 1].key == k;
      }
    }
  }

  /** Moving the last member into slot `i` removes exactly one occurrence of `ms[i].key`. */
  lemma KeyCountSwapRemove(ms: seq<Member>, i: nat, k: string)
    requires i < |ms|
    ensures KeyCount(ms, k) == KeyCount(SwapRemove(ms, i), k) + (if ms[i].key == k then 1 else 0)
  {
    var last := |ms| - 1;
    if i == last {
      assert ms == ms[..last] + [ms[last]];
      KeyCountSplit(ms[..last], [ms[last]], k);
    } else {
      var mid := ms[i + 1..last];
      assert ms == ms[..i] + ([ms[i]] + (mid + [ms[last]]));
      assert SwapRemove(ms, i) == ms[..i] + ([ms[last]] + mid);
      KeyCountSwapParts(ms[..i], ms[i], mid, ms[last], k);
    }
  }

  /** The count over "pre, x, mid, y" is the count over "pre, y, mid" plus x's share. */
  lemma KeyCountSwapParts(pre: seq<Member>, x: Member, mid: seq<Member>, y: Member, k: string)
    ensures KeyCount(pre + ([x] + (mid + [y])), k) == KeyCount(pre + ([y] + mid), k) + (if x.key == k then 1 else 0)
  {
    KeyCountSplit(pre, [x] + (mid + [y]), k);
    KeyCountSplit([x], mid + [y], k);
    KeyCountSplit(mid, [y], k);
    KeyCountSplit(pre, [y] + mid, k);
    KeyCountSplit([y], mid, k);
  }

  /** Removing takes out exactly the first member named `k`, with the value GetMember reads, and keeps every other member. */
  lemma WithoutMemberMultiset(j: Value, k: string)
    requires HasMember(j, k)
    ensures multiset(WithoutMember(j, k).members) + multiset{Member(k, GetMember(j, k))} == multiset(j.members)
  {
    var i := FindIndex(j.members, k).value;
    SwapRemoveMultiset(j.members, i);
    assert j.members[i] == Member(k, GetMember(j, k));
  }

  /** Removing a member lowers the count of its key by exactly one and leaves every other key's count alone. */
  lemma WithoutMemberCounts(j: Value, k: string, other: string)
    requires HasMember(j, k)
    ensures KeyCount(WithoutMember(j, k).members, k) == KeyCount(j.members, k) - 1
    ensures other != k ==> KeyCount(WithoutMember(j, k).members, other) == KeyCount(j.members, other)
  {
    var i := FindIndex(j.members, k).value;
    KeyCountSwapRemove(j.members, i, k);
    KeyCountSwapRemove(j.members, i, other);
  }

  /** Removing a key that occurs once leaves no member with that key. */
  lemma WithoutUniqueMember(j: Value, k: string)
    requires HasMember(j, k) && KeyCount(j.members, k) == 1
    ensures !HasMember(WithoutMember(j, k), k)
  {
    WithoutMemberCounts(j, k, k);
    KeyCountPositive(WithoutMember(j, k).members, k);
  }

  /**
   * Adding without duplicates to an object where `k` occurs at most once
   * leaves exactly one member named `k`, and it reads back as `v`.
   */
  lemma WithMemberReplaces(j: Value, k: string, v: Value)
    requires j.Object? && KeyCount(j.members, k) <= 1
    ensures KeyCount(WithMember(j, k, v, false).members, k) == 1
    ensures GetMember(WithMember(j, k, v, false), k) == v
  {
    var base := WithoutMember(j, k);
    KeyCountPositive(j.members, k);
    if HasMember(j, k) {
      WithoutMemberCounts(j, k, k);
    }
    assert KeyCount(base.members, k) == 0;
    KeyCountPositive(base.members, k);
    KeyCountSplit(base.members, [Member(k, v)], k);
    var r := WithMember(j, k, v, false);
    assert r.members == base.members + [Member(k, v)];
    assert FindIndex(r.members, k) == Some(|base.members|);
  }

  /** Adding to an object that has no member `k` appends it and changes nothing else. */
  lemma WithNewMember(ms: seq<Member>, k: string, v: Value)
    requires forall i :: 0 <= i < |ms| ==> ms[i].key != k
    ensures WithMember(Object(ms), k, v, false) == Object(ms + [Member(k, v)])
  {
    assert FindIndex(ms, k).None?;
  }

  /** The member a lookup returns is the first one with that key. */
  lemma GetMemberFirst(j: Value, k: string)
    requires HasMember(j, k)
    ensures exists i :: 0 <= i < |j.members| && j.members[i] == Member(k, GetMember(j, k)) && (forall p :: 0 <= p < i ==> j.members[p].key != k)
  {
    var i := FindIndex(j.members, k).value;
    assert j.members[i] == Member(k, GetMember(j, k));
  }

  /** A member preceded by no member with the same key is the one lookups find. */
  lemma GetMemberAt(ms: seq<Member>, i: nat)
    requires i < |ms| && forall p :: 0 <= p < i ==> ms[p].key != ms[i].key
    ensures HasMember(Object(ms), ms[i].key)
    ensures GetMember(Object(ms), ms[i].key) == ms[i].value
  {
    var r := FindIndex(ms, ms[i].key);
    assert r.Some?;
    assert r.value == i;
  }

  /** No two members share a key. */
  predicate DistinctKeys(ms: seq<Member>)
  {
    forall p, i :: 0 <= p < i < |ms| ==> ms[p].key != ms[i].key
  }

  /** The effect of adding each of `ms`, in order, without duplicates. */
  function WithMembers(j: Value, ms: seq<Member>): (r: Value)
    ensures j.Object? ==> r.Object?
    decreases |ms|
  {
    if ms == [] then j else WithMembers(WithMember(j, ms[0].key, ms[0].value, false), ms[1..])
  }

  /** Adding members with fresh, distinct keys to an object appends them in order. */
  lemma {:induction false} WithFreshMembers(ms0: seq<Member>, ms: seq<Member>)
    requires DistinctKeys(ms0 + ms)
    ensures WithMembers(Object(ms0), ms) == Object(ms0 + ms)
    decreases |ms|
  {
    if ms == [] {
      assert ms0 + ms == ms0;
    } else {
      var all := ms0 + ms;
      forall p | 0 <= p < |ms0|
        ensures ms0[p].key != ms[0].key
      {
        assert all[p] == ms0[p] && all[|ms0|] == ms[0];
      }
      WithNewMember(ms0, ms[0].key, ms[0].value);
      assert (ms0 + [ms[0]]) + ms[1..] == all;
      WithFreshMembers(ms0 + [ms[0]], ms[1..]);
    }
  }

  /** Writing members with distinct keys into an empty object gives exactly those members, each found by its key. */
  lemma WrittenObject(ms: seq<Member>)
    requires DistinctKeys(ms)
    ensures WithMembers(EMPTY_OBJECT, ms) == Object(ms)
    ensures forall i :: 0 <= i < |ms| ==> HasMember(Object(ms), ms[i].key) && GetMember(Object(ms), ms[i].key) == ms[i].value
  {
    assert [] + ms == ms;
    WithFreshMembers([], ms);
    forall i | 0 <= i < |ms|
      ensures HasMember(Object(ms), ms[i].key) && GetMember(Object(ms), ms[i].key) == ms[i].value
    {
      GetDistinctMember(ms, i);
    }
  }

  /** In an object with distinct keys every member is found by its key. */
  lemma GetDistinctMember(ms: seq<Member>, i: nat)
    requires DistinctKeys(ms) && i < |ms|
    ensures HasMember(Object(ms), ms[i].key)
    ensures GetMember(Object(ms), ms[i].key) == ms[i].value
  {
    GetMemberAt(ms, i);
  }

  /** A value written out parses back to itself when every double is finite, and to `{}` otherwise. */
  lemma ParseWrite(j: Value)
    ensures Writable(j) ==> Parse(Write(j)) == j
    ensures !Writable(j) ==> Parse(Write(j)) == EMPTY_OBJECT
  {
  }

  /** An object holding a NaN is cut off when written and parses back as `{}`. */
  lemma NanIsCutOff(k: string)
    ensures !Writable(Object([Member(k, Double(DoubleBits(0x7FF8_0000_0000_0000)))]))
    ensures Parse(Write(Object([Member(k, Double(DoubleBits(0x7FF8_0000_0000_0000)))]))) == EMPTY_OBJECT
  {
    var ms := [Member(k, Double(DoubleBits(0x7FF8_0000_0000_0000)))];
    assert !Writable(ms[0].value);
  }

  /**
   * A handle on a JSON value whose mutators change the value in place. The
   * root document and the sharing of sub-values between handles are not
   * modelled: every handle owns its value.
   */
  class JsonValue {
    var value: Value

    /** The default value is an empty object. */
    constructor ()
      ensures value == EMPTY_OBJECT
    {
      value := EMPTY_OBJECT;
    }

    method AddMember(k: string, v: Value, allowDuplicates: bool)
      modifies this
      ensures value == WithMember(old(value), k, v, allowDuplicates)
    {
      if value.Object? {
        if !allowDuplicates {
          RemoveMember(k);
        }
        value := Object(value.members + [Member(k, v)]);
      }
    }

    method RemoveMember(k: string)
      modifies this
      ensures value == WithoutMember(old(value), k)
    {
      if value.Object? && HasMember(value, k) {
        var i := FindIndex(value.members, k).value;
        value := Object(SwapRemove(value.members, i));
      }
    }

    method PushBack(v: Value)
      modifies this
      ensures value == PushedBack(old(value), v)
    {
      if value.Array? {
        value := Array(value.items + [v]);
      }
    }

    method SetObject()
      modifies this
      ensures value == EMPTY_OBJECT
    {
      value := EMPTY_OBJECT;
    }

    method SetArray()
      modifies this
      ensures value == Array([])
    {
      value := Array([]);
    }

    method SetInt(x: int)
      requires INT32_MIN <= x <= INT32_MAX
      modifies this
      ensures value == Int(x) && GetInt(value) == x
    {
      value := Int(x);
    }

    method SetString(text: string)
      modifies this
      ensures value == String(text) && GetString(value) == text
    {
      value := String(text);
    }

    method SetDouble(x: DoubleBits)
      modifies this
      ensures value == Double(x) && GetDouble(value) == x
    {
      value := Double(x);
    }

    method SetBool(b: bool)
      modifies this
      ensures value == Bool(b) && GetBool(value) == b
    {
      value := Bool(b);
    }
  }
}
