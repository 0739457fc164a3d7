// `Hominid::Base#hash_to_object` (lib/hominid/base.rb:103-117): a Hash becomes an
// OpenStruct over a copy whose values are converted and stored under the downcased
// key, an Array a converted copy, anything else itself.

module Projection {
  import opened Ruby

  /** Every Hash reachable through Hashes and Arrays has lower-case keys. */
  predicate AllKeysLower(v: Value)
  {
    match v
    case Hash(m) => forall k :: k in m ==> IsLowerCase(k) && AllKeysLower(m[k])
    case Arr(es) => forall i :: 0 <= i < |es| ==> AllKeysLower(es[i])
    case _ => true
  }

  /** No OpenStruct is reachable through Hashes and Arrays, as in a decoded XML-RPC
      response. */
  predicate NoObj(v: Value)
  {
    match v
    case Obj(_) => false
    case Hash(m) => forall k :: k in m ==> NoObj(m[k])
    case Arr(es) => forall i :: 0 <= i < |es| ==> NoObj(es[i])
    case _ => true
  }

  /** No Hash is reachable through Arrays and objects: all of them became objects. */
  predicate NoHash(v: Value)
  {
    match v
    case Hash(_) => false
    case Arr(es) => forall i :: 0 <= i < |es| ==> NoHash(es[i])
    case Obj(f) => forall k :: k in f ==> NoHash(f[k])
    case _ => true
  }

  /** Every object reachable through Arrays and objects has lower-case field names. */
  predicate ObjKeysLower(v: Value)
  {
    match v
    case Obj(f) => forall k :: k in f ==> IsLowerCase(k) && ObjKeysLower(f[k])
    case Arr(es) => forall i :: 0 <= i < |es| ==> ObjKeysLower(es[i])
    case _ => true
  }

  /** The conversion, for inputs whose Hash keys are lower-case. */
  function Projected(v: Value): (r: Value)
    ensures !v.Hash? && !v.Arr? ==> r == v
    ensures v.Arr? ==> r.Arr? && |r.elems| == |v.elems|
    ensures v.Hash? ==> r.Obj? && r.fields.Keys == v.entries.Keys
  {
    match v
    case Hash(m) => Obj(map k | k in m :: Projected(m[k]))
    case Arr(es) => Arr(seq(|es|, i requires 0 <= i < |es| => Projected(es[i])))
    case _ => v
  }

  /** Converting a response leaves no Hash behind, and lower-case keys become
      lower-case fields. */
  lemma {:induction false} ProjectedShape(v: Value)
    requires NoObj(v)
    ensures NoHash(Projected(v))
    ensures AllKeysLower(v) ==> ObjKeysLower(Projected(v))
  {
    match v
    case Hash(m) =>
      forall k | k in m ensures NoHash(Projected(m[k])) && (AllKeysLower(v) ==> ObjKeysLower(Projected(m[k]))) {
        ProjectedShape(m[k]);
      }
    case Arr(es) =>
      forall i | 0 <= i < |es| ensures NoHash(Projected(es[i])) && (AllKeysLower(v) ==> ObjKeysLower(Projected(es[i]))) {
        ProjectedShape(es[i]);
      }
    case _ =>
  }

  /** A value with no Hash in it is already converted. */
  lemma {:induction false} ProjectedFixesHashFree(v: Value)
    requires NoHash(v)
    ensures Projected(v) == v
  {
    match v
    case Arr(es) =>
      forall i | 0 <= i < |es| ensures Projected(es[i]) == es[i] {
        ProjectedFixesHashFree(es[i]);
      }
      assert Projected(v).elems == es;
    case _ =>
  }

  /** Converting an already converted response changes nothing. */
  lemma ProjectedIdempotent(v: Value)
    requires NoObj(v)
    ensures Projected(Projected(v)) == Projected(v)
  {
    ProjectedShape(v);
    ProjectedFixesHashFree(Projected(v));
  }

  lemma ProjectedExample()
    ensures Projected(Hash(map["key" := Hash(map["nested" := Int(1)])]))
      == Obj(map["key" := Obj(map["nested" := Int(1)])])
  {
    var inner := map["nested" := Int(1)];
    assert Projected(Hash(inner)).fields == inner;
    var outer := map["key" := Hash(inner)];
    assert Projected(Hash(outer)).fields == map["key" := Obj(inner)];
  }

  /** The downcased form of every key. */
  function DowncasedKeys(m: map<string, Value>): set<string>
  {
    set k | k in m :: Downcase(k)
  }

  /** `hash_to_object(object)`: recursive, filling each copied container as it goes.
      On a Hash whose keys are not all lower-case the source adds keys to the Hash it
      is iterating over; the contract then gives the keys of the result, not its values. */
  method HashToObject(v: Value) returns (r: Value)
    ensures !v.Hash? && !v.Arr? ==> r == v
    ensures v.Arr? ==> r.Arr? && |r.elems| == |v.elems|
    ensures v.Hash? ==> r.Obj? && r.fields.Keys == v.entries.Keys + DowncasedKeys(v.entries)
    ensures AllKeysLower(v) ==> r == Projected(v)
    decreases v, 1
  {
    match v
    case Hash(m) =>
      var fields := HashToFields(m);
      r := Obj(fields);
    case Arr(es) =>
      var elems := ArrayToElems(es);
      r := Arr(elems);
    case _ =>
      r := v;
  }

  /** The `when Hash` branch: `object.clone`, then `object[key.downcase] = ...` for
      each key, the result becoming the OpenStruct's fields. */
  method HashToFields(m: map<string, Value>) returns (copy: map<string, Value>)
    ensures copy.Keys == m.Keys + DowncasedKeys(m)
    ensures AllKeysLower(Hash(m)) ==> copy == Projected(Hash(m)).fields
    decreases Hash(m), 0
  {
    ghost var lower := AllKeysLower(Hash(m));
    copy := m;
    var todo := m.Keys;
    while todo != {}
      invariant todo <= m.Keys
      invariant copy.Keys == m.Keys + DowncasedOutside(m, todo)
      invariant lower ==> forall k :: k in m ==> copy[k] == if k in todo then m[k] else Projected(m[k])
      decreases todo
    {
      var key :| key in todo;
      var converted := HashToObject(m[key]);
      if lower {
        LowerKeyKept(m, key);
      }
      DowncasedOutsideStep(m, todo, key);
      copy := copy[Downcase(key) := converted];
      todo := todo - {key};
    }
    assert DowncasedOutside(m, {}) == DowncasedKeys(m);
    if lower {
      LowerKeysDowncased(m);
      ProjectedFields(m, copy);
    }
  }

  lemma ProjectedFields(m: map<string, Value>, fields: map<string, Value>)
    requires fields.Keys == m.Keys
    requires forall k :: k in m ==> fields[k] == Projected(m[k])
    ensures fields == Projected(Hash(m)).fields
  {
  }

  /** The downcased forms of the keys the loop has visited. */
  function DowncasedOutside(m: map<string, Value>, todo: set<string>): set<string>
  {
    set k | k in m && k !in todo :: Downcase(k)
  }

  lemma DowncasedOutsideStep(m: map<string, Value>, todo: set<string>, key: string)
    requires key in todo && todo <= m.Keys
    ensures DowncasedOutside(m, todo - {key}) == DowncasedOutside(m, todo) + {Downcase(key)}
  {
  }

  /** In a Hash with lower-case keys, a key is its own downcased form and its value
      has lower-case keys too. */
  lemma LowerKeyKept(m: map<string, Value>, key: string)
    requires AllKeysLower(Hash(m)) && key in m
    ensures Downcase(key) == key && AllKeysLower(m[key])
  {
    DowncaseFixesLowerCase(key);
  }

  /** Lower-case keys are their own downcased forms. */
  lemma LowerKeysDowncased(m: map<string, Value>)
    requires forall k :: k in m ==> IsLowerCase(k)
    ensures DowncasedKeys(m) <= m.Keys
  {
    forall k | k in m ensures Downcase(k) in m {
      DowncaseFixesLowerCase(k);
    }
  }

  /** The `when Array` branch: `object.clone`, then `map!` converting each element. */
  method ArrayToElems(es: seq<Value>) returns (copy: seq<Value>)
    ensures |copy| == |es|
    ensures AllKeysLower(Arr(es)) ==> copy == Projected(Arr(es)).elems
    decreases Arr(es), 0
  {
    copy := es;
    var i := 0;
    while i < |es|
      invariant 0 <= i <= |es|
      invariant |copy| == |es|
      invariant forall j :: i <= j < |es| ==> copy[j] == es[j]
      invariant AllKeysLower(Arr(es)) ==> forall j :: 0 <= j < i ==> copy[j] == Projected(es[j])
    {
      var converted := HashToObject(copy[i]);
      copy := copy[i := converted];
      i := i + 1;
    }
  }
}
