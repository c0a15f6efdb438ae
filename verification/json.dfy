/**
 * JSON values as the JSON Schema tools read them (`json_syntax::Value` and
 * `serde_json::Value`): objects are sequences of entries in document
 * order, and a number is either an integer or a number written with a
 * fraction or an exponent, kept as its text.
 */
module Json {
  import opened Wrappers

  datatype Number = IntegerNumber(i: int) | DecimalNumber(text: string)

  datatype Value =
    | Null
    | Boolean(b: bool)
    | Num(n: Number)
    | Str(s: string)
    | Array(items: seq<Value>)
    | Object(members: seq<Member>)

  datatype Member = Member(key: string, value: Value)

  /** The exclusive upper bound of `u64`. */
  const U64Limit: int := 0x1_0000_0000_0000_0000

  /** `as_u64`: the number as an unsigned 64-bit integer, when it is an
    * integer in range. */
  function AsU64(n: Number): (r: Option<nat>)
    ensures r.Some? <==> n.IntegerNumber? && 0 <= n.i < U64Limit
    ensures r.Some? ==> r.value == n.i
  {
    match n
    case IntegerNumber(i) => if 0 <= i < U64Limit then Some(i) else None
    case DecimalNumber(_) => None
  }

  /** The position of the first entry with the key, which is the entry
    * `remove` takes. */
  function FindKey(members: seq<Member>, key: string): (r: Option<nat>)
    ensures r.Some? ==> r.value < |members| && members[r.value].key == key
    ensures r.Some? ==> forall j :: 0 <= j < r.value ==> members[j].key != key
    ensures r.None? ==> forall j :: 0 <= j < |members| ==> members[j].key != key
  {
    if |members| == 0 then None
    else if members[0].key == key then Some(0)
    else match FindKey(members[1..], key)
      case Some(i) => Some(i + 1)
      case None => None
  }

  /** Whether an object has an entry with the key. */
  predicate HasKey(members: seq<Member>, key: string) {
    FindKey(members, key).Some?
  }

  /** The value of the first entry with the key, if any. */
  function Get(members: seq<Member>, key: string): (r: Option<Value>)
    ensures r.Some? <==> HasKey(members, key)
    ensures r.Some? ==> exists j :: 0 <= j < |members| && members[j] == Member(key, r.value)
  {
    match FindKey(members, key)
    case Some(i) => Some(members[i].value)
    case None => None
  }

  /** Looking a key up in an object starting with a given entry. */
  lemma GetCons(m: Member, rest: seq<Member>, key: string)
    ensures Get([m] + rest, key) == if m.key == key then Some(m.value) else Get(rest, key)
  {
    assert ([m] + rest)[1..] == rest;
  }

  /** `insert`: the entry with the key takes the value in place, or a new
    * entry is appended; no other key changes. */
  function Insert(members: seq<Member>, key: string, value: Value): (r: seq<Member>)
    ensures Get(r, key) == Some(value)
    ensures forall k :: k != key ==> Get(r, k) == Get(members, k)
    ensures |r| == |members| + (if HasKey(members, key) then 0 else 1)
    ensures forall j :: 0 <= j < |members| ==> r[j].key == members[j].key
  {
    match FindKey(members, key)
    case Some(i) =>
      var r := members[i := Member(key, value)];
      InsertKeepsKeys(members, r, key, i);
      r
    case None =>
      var r := members + [Member(key, value)];
      InsertKeepsKeys(members, r, key, |members|);
      r
  }

  /** Changing or appending the entry at `i` keeps the first entry of
    * every other key. */
  lemma InsertKeepsKeys(members: seq<Member>, r: seq<Member>, key: string, i: nat)
    requires i <= |members| && |r| == (if i < |members| then |members| else |members| + 1)
    requires forall j :: 0 <= j < |r| && j != i ==> r[j] == members[j]
    requires r[i].key == key && (i < |members| ==> members[i].key == key)
    requires forall j :: 0 <= j < i ==> members[j].key != key
    ensures FindKey(r, key) == Some(i)
    ensures forall k :: k != key ==> Get(r, k) == Get(members, k)
  {
    forall k | k != key ensures Get(r, k) == Get(members, k) {
      FindKeyKeep(members, r, key, i, k);
    }
    FindKeyFirst(r, key, i);
  }

  lemma {:induction false} FindKeyFirst(ms: seq<Member>, key: string, i: nat)
    requires i < |ms| && ms[i].key == key
    requires forall j :: 0 <= j < i ==> ms[j].key != key
    ensures FindKey(ms, key) == Some(i)
  {
    if i > 0 {
      FindKeyFirst(ms[1..], key, i - 1);
    }
  }

  lemma {:induction false} FindKeyKeep(members: seq<Member>, r: seq<Member>, key: string, i: nat, k: string)
    requires i <= |members| && |r| == (if i < |members| then |members| else |members| + 1)
    requires forall j :: 0 <= j < |r| && j != i ==> r[j] == members[j]
    requires r[i].key == key && (i < |members| ==> members[i].key == key)
    requires k != key
    ensures Get(r, k) == Get(members, k)
  {
    var a := FindKey(members, k);
    var b := FindKey(r, k);
    if a.Some? {
      assert a.value != i;
      FindKeyFirst(r, k, a.value);
    }
  }
}
