/** The values `JSON.parse` can produce, and the JavaScript operations the pipeline applies
    to them: truthiness, property access and `Object.entries`. `JSON.parse` itself is an
    oracle (`string -> Option<Json>`, None when it throws) supplied by the caller. */
module Json {
  import opened Wrappers
  import opened Seqs
  import opened Firsts

  datatype Json =
    | JNull
    | JBool(b: bool)
    | JNum(n: real)
    | JStr(s: string)
    | JArr(elems: seq<Json>)
    | JObj(members: seq<Member>)   // the members in the order the text lists them

  /** One `"key": value` pair of an object text. A key may be listed more than once. */
  datatype Member = Member(key: string, value: Json)

  function MemberKey(m: Member): string {
    m.key
  }

  /** JavaScript truthiness of a parsed value (`JSON.parse` never yields NaN). */
  predicate Truthy(j: Json) {
    match j
    case JNull => false
    case JBool(b) => b
    case JNum(n) => n != 0.0
    case JStr(s) => s != ""
    case JArr(_) => true
    case JObj(_) => true
  }

  /** The falsy parsed values are exactly `null`, `false`, `0` and `""`. */
  lemma FalsyValues(j: Json)
    ensures !Truthy(j) <==> j == JNull || j == JBool(false) || j == JNum(0.0) || j == JStr("")
  {
  }

  /** The last member listed with `key`: `JSON.parse` lets a repeated key overwrite the
      value of its earlier occurrences. */
  function LastWithKey(ms: seq<Member>, key: string): (r: Option<nat>)
    ensures r.Some? ==> r.value < |ms| && ms[r.value].key == key
    ensures r.Some? ==> forall j | r.value < j < |ms| :: ms[j].key != key
    ensures r.None? <==> forall j | 0 <= j < |ms| :: ms[j].key != key
  {
    if ms == [] then None
    else if ms[|ms| - 1].key == key then Some(|ms| - 1)
    else LastWithKey(ms[..|ms| - 1], key)
  }

  /** The object holds `v` under `key`: the last member listed with that key carries `v`. */
  predicate LastValueIs(ms: seq<Member>, key: string, v: Json) {
    exists i | 0 <= i < |ms| :: ms[i] == Member(key, v) && forall j | i < j < |ms| :: ms[j].key != key
  }

  /** The outcome of evaluating `j.key`. */
  datatype Lookup = TypeError | Undefined | Found(value: Json)

  /** `j.key`: reading a property of `null` throws a TypeError; only objects carry the
      keys the pipeline asks for, so on any other value the read gives `undefined`. */
  function Property(j: Json, key: string): (r: Lookup)
    ensures r.TypeError? <==> j.JNull?
    ensures r.Found? <==> j.JObj? && exists i | 0 <= i < |j.members| :: j.members[i].key == key
    ensures r.Found? ==> LastValueIs(j.members, key, r.value)
    ensures forall v | j.JObj? && LastValueIs(j.members, key, v) :: r == Found(v)
  {
    match j
    case JNull => TypeError
    case JObj(ms) =>
      (match LastWithKey(ms, key)
       case None => Undefined
       case Some(i) => Found(ms[i].value))
    case _ => Undefined
  }

  function KeysOf(ms: seq<Member>): (ks: seq<string>)
    ensures |ks| == |ms|
    ensures forall i | 0 <= i < |ms| :: ks[i] == ms[i].key
  {
    seq(|ms|, i requires 0 <= i < |ms| => ms[i].key)
  }

  /** The object's own keys in the order `Object.entries` lists them for a parsed object:
      each key once, where the text first lists it. */
  function OwnKeys(ms: seq<Member>): (ks: seq<string>)
    ensures forall i, j | 0 <= i < j < |ks| :: ks[i] != ks[j]
    ensures forall k :: k in ks <==> k in KeysOf(ms)
  {
    var firsts := FirstOccurrences(ms, MemberKey, |ms|);
    var ks := KeysOf(firsts);
    OwnKeysDistinct(ms);
    OwnKeysCover(ms);
    assert forall i | 0 <= i < |ks| :: ks[i] == MemberKey(firsts[i]);
    ks
  }

  lemma OwnKeysDistinct(ms: seq<Member>)
    ensures DistinctKeys(FirstOccurrences(ms, MemberKey, |ms|), MemberKey)
  {
    DedupFromIsFirstOccurrences(ms, MemberKey);
    DedupFromDistinct(ms, MemberKey, {});
  }

  lemma OwnKeysCover(ms: seq<Member>)
    ensures forall k :: k in KeysOf(FirstOccurrences(ms, MemberKey, |ms|)) <==> k in KeysOf(ms)
  {
    OwnKeysSound(ms);
    OwnKeysComplete(ms);
  }

  /** Every key kept is a key of some member. */
  lemma OwnKeysSound(ms: seq<Member>)
    ensures forall k | k in KeysOf(FirstOccurrences(ms, MemberKey, |ms|)) :: k in KeysOf(ms)
  {
    var firsts := FirstOccurrences(ms, MemberKey, |ms|);
    var ks := KeysOf(firsts);
    DedupFromIsFirstOccurrences(ms, MemberKey);
    DedupFromSubseq(ms, MemberKey, {});
    SubseqMembers(firsts, ms);
    forall k | k in ks ensures k in KeysOf(ms) {
      var g :| 0 <= g < |ks| && ks[g] == k;
      assert firsts[g] in ms;
      var i :| 0 <= i < |ms| && ms[i] == firsts[g];
      assert KeysOf(ms)[i] == k;
    }
  }

  /** Every key of some member is kept. */
  lemma OwnKeysComplete(ms: seq<Member>)
    ensures forall k | k in KeysOf(ms) :: k in KeysOf(FirstOccurrences(ms, MemberKey, |ms|))
  {
    var firsts := FirstOccurrences(ms, MemberKey, |ms|);
    var ks := KeysOf(firsts);
    DedupFromIsFirstOccurrences(ms, MemberKey);
    DedupFromKeepsFirst(ms, MemberKey, {});
    forall k | k in KeysOf(ms) ensures k in ks {
      var i :| 0 <= i < |ms| && KeysOf(ms)[i] == k;
      var f := FirstIndexOf(ms, MemberKey, i);
      assert ms[f] in firsts;
      var g :| 0 <= g < |firsts| && firsts[g] == ms[f];
      assert ks[g] == k;
    }
  }

  /** `OwnKeys` lists the keys in the order the text first lists them: key `k` is the key
      of member `pos[k]`, the first member with that key, and the positions increase. */
  lemma OwnKeysInTextOrder(ms: seq<Member>) returns (pos: seq<nat>)
    ensures |pos| == |OwnKeys(ms)|
    ensures forall k | 0 <= k < |pos| :: (pos[k] < |ms| && FirstOfKey(ms, MemberKey, pos[k])
      && OwnKeys(ms)[k] == ms[pos[k]].key)
    ensures forall k, l | 0 <= k < l < |pos| :: pos[k] < pos[l]
  {
    pos := FirstOccurrencesPositions(ms, MemberKey, |ms|);
    var firsts := FirstOccurrences(ms, MemberKey, |ms|);
    assert forall k | 0 <= k < |pos| :: OwnKeys(ms)[k] == KeysOf(firsts)[k] == firsts[k].key;
  }

  /** The value held under `key` (null when the key is absent). */
  function ValueAt(ms: seq<Member>, key: string): Json {
    match LastWithKey(ms, key)
    case None => JNull
    case Some(i) => ms[i].value
  }

  /** `Object.entries(obj)` of a parsed object, values only: one value per own key, in key
      order, each the value the object holds under that key. */
  function OwnValues(ms: seq<Member>): (vs: seq<Json>)
    ensures |vs| == |OwnKeys(ms)|
    ensures forall i | 0 <= i < |vs| :: Property(JObj(ms), OwnKeys(ms)[i]) == Found(vs[i])
  {
    var ks := OwnKeys(ms);
    var vs := seq(|ks|, i requires 0 <= i < |ks| => ValueAt(ms, ks[i]));
    forall i | 0 <= i < |vs| ensures Property(JObj(ms), ks[i]) == Found(vs[i]) {
      assert ks[i] in KeysOf(ms);
      var h :| 0 <= h < |ms| && KeysOf(ms)[h] == ks[i];
    }
    vs
  }
}
