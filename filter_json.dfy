/**
  filter_json: a JSON tree and the pre-order rewrite transform_objects, which
  hands the root to a visitor and then descends, after the visitor has run,
  into every member whose value is an object. Arrays and scalars are not
  descended into.
 */
module FilterJson {

  datatype Scalar = Null | Bool(b: bool) | Number(n: int) | Str(s: string)

  /** A JSON value; an object is an ordered list of key/value members. */
  datatype Json = Object(members: seq<Member>) | Array(items: seq<Json>) | Value(scalar: Scalar)

  datatype Member = Member(key: string, value: Json)

  /** A visitor: what the callback makes of the value it is handed. */
  type Visitor = Json -> Json

  // ---------------------------------------------------------------------------
  // Nesting depth of objects along object-valued members

  function Depth(j: Json): nat
    decreases j
  {
    match j
    case Object(ms) => 1 + MembersDepth(ms)
    case _ => 0
  }

  /** The deepest member value; no member value is deeper. */
  function MembersDepth(ms: seq<Member>): (d: nat)
    ensures forall i :: 0 <= i < |ms| ==> Depth(ms[i].value) <= d
    decreases ms
  {
    if ms == [] then 0
    else
      var first, rest := Depth(ms[0].value), MembersDepth(ms[1..]);
      assert forall i :: 1 <= i < |ms| ==> ms[i] == ms[1..][i - 1];
      if first < rest then rest else first
  }

  /**
    A visitor that never makes nesting deeper. The recursion of the transform
    follows the visitor's output, so this is what makes it end.
   */
  ghost predicate Shallow(v: Visitor)
  {
    forall j :: Depth(v(j)) <= Depth(j)
  }

  // ---------------------------------------------------------------------------
  // The transform

  /** transform_object: visit `j`, then transform every object-valued member of the result. */
  function Transform(j: Json, v: Visitor): (r: Json)
    requires Shallow(v)
    decreases Depth(j), 1, 0
  {
    var o := v(j);
    match o
    case Object(ms) => Object(TransformMembers(ms, v))
    case _ => o
  }

  /**
    The loop over object_range(): each member keeps its key and its place; an
    object value is transformed, any other value is left as it is.
   */
  function TransformMembers(ms: seq<Member>, v: Visitor): (r: seq<Member>)
    requires Shallow(v)
    ensures |r| == |ms|
    ensures forall i :: 0 <= i < |ms| ==> r[i].key == ms[i].key
    ensures forall i :: 0 <= i < |ms| && !ms[i].value.Object? ==> r[i] == ms[i]
    ensures forall i :: 0 <= i < |ms| && ms[i].value.Object? ==> r[i].value == Transform(ms[i].value, v)
    decreases MembersDepth(ms) + 1, 0, |ms|
  {
    if ms == [] then []
    else
      var m := ms[0];
      var first := if m.value.Object? then Member(m.key, Transform(m.value, v)) else m;
      [first] + TransformMembers(ms[1..], v)
  }

  /** The root is handed to the visitor first, whatever it is; only an object result is descended into. */
  lemma TransformRoot(j: Json, v: Visitor)
    requires Shallow(v)
    ensures !v(j).Object? ==> Transform(j, v) == v(j)
    ensures v(j).Object? ==> Transform(j, v).Object? && |Transform(j, v).members| == |v(j).members|
  {
  }

  // ---------------------------------------------------------------------------
  // The visits

  /** The values handed to the visitor, in call order. */
  function Visits(j: Json, v: Visitor): seq<Json>
    requires Shallow(v)
    decreases Depth(j), 1, 0
  {
    var o := v(j);
    [j] + match o
          case Object(ms) => MembersVisits(ms, v)
          case _ => []
  }

  function MembersVisits(ms: seq<Member>, v: Visitor): seq<Json>
    requires Shallow(v)
    decreases MembersDepth(ms) + 1, 0, |ms|
  {
    if ms == [] then []
    else
      (if ms[0].value.Object? then Visits(ms[0].value, v) else []) + MembersVisits(ms[1..], v)
  }

  /** A visitor that turns objects into objects. */
  ghost predicate KeepsObjects(v: Visitor)
  {
    forall j: Json :: j.Object? ==> v(j).Object?
  }

  /** The objects of a tree reachable from its root through object-valued members, the root included. */
  function ObjectCount(j: Json): nat
    decreases j
  {
    match j
    case Object(ms) => 1 + MembersObjectCount(ms)
    case _ => 0
  }

  function MembersObjectCount(ms: seq<Member>): nat
    decreases ms
  {
    if ms == [] then 0 else ObjectCount(ms[0].value) + MembersObjectCount(ms[1..])
  }

  /**
    Pre-order and exactly once: the root is visited first, and for a visitor
    that keeps objects objects there is one visit per object reachable in the
    result.
   */
  lemma {:induction false} VisitsOncePerObject(j: Json, v: Visitor)
    requires Shallow(v) && KeepsObjects(v) && j.Object?
    ensures Visits(j, v)[0] == j
    ensures |Visits(j, v)| == ObjectCount(Transform(j, v))
    decreases Depth(j), 1, 0
  {
    var ms := v(j).members;
    MembersVisitsOncePerObject(ms, v);
  }

  lemma {:induction false} MembersVisitsOncePerObject(ms: seq<Member>, v: Visitor)
    requires Shallow(v) && KeepsObjects(v)
    ensures |MembersVisits(ms, v)| == MembersObjectCount(TransformMembers(ms, v))
    decreases MembersDepth(ms) + 1, 0, |ms|
  {
    if ms != [] {
      var r := TransformMembers(ms, v);
      assert r[1..] == TransformMembers(ms[1..], v);
      if ms[0].value.Object? {
        VisitsOncePerObject(ms[0].value, v);
      }
      MembersVisitsOncePerObject(ms[1..], v);
    }
  }

  // ---------------------------------------------------------------------------
  // A visitor that changes nothing

  /** With the identity visitor the tree comes back unchanged. */
  lemma {:induction false} TransformIdentity(j: Json, v: Visitor)
    requires forall x :: v(x) == x
    ensures Shallow(v)
    ensures Transform(j, v) == j
    decreases j
  {
    if j.Object? {
      MembersIdentity(j.members, v);
    }
  }

  lemma {:induction false} MembersIdentity(ms: seq<Member>, v: Visitor)
    requires forall x :: v(x) == x
    ensures Shallow(v)
    ensures TransformMembers(ms, v) == ms
    decreases ms
  {
    var r := TransformMembers(ms, v);
    forall i | 0 <= i < |ms| && ms[i].value.Object?
      ensures r[i] == ms[i]
    {
      TransformIdentity(ms[i].value, v);
    }
  }

  // ---------------------------------------------------------------------------
  // The documented visitor: set "pid" to 0 where it occurs

  const PidKey: string := "pid"

  predicate HasKey(ms: seq<Member>, key: string)
  {
    exists i :: 0 <= i < |ms| && ms[i].key == key
  }

  /** obj[key] = value, for every member with that key. */
  function SetKey(ms: seq<Member>, key: string, value: Json): (r: seq<Member>)
    ensures |r| == |ms|
    ensures forall i :: 0 <= i < |ms| ==> r[i] == if ms[i].key == key then Member(key, value) else ms[i]
  {
    if ms == [] then [] else
      [if ms[0].key == key then Member(key, value) else ms[0]] + SetKey(ms[1..], key, value)
  }

  /** The visitor of the class comment: if the object has key "pid", set it to 0. */
  function ZeroPid(j: Json): Json
  {
    if j.Object? && HasKey(j.members, PidKey) then Object(SetKey(j.members, PidKey, Value(Number(0)))) else j
  }

  /** Replacing member values by scalars makes nothing deeper. */
  lemma {:induction false} SetScalarDepth(ms: seq<Member>, key: string, s: Scalar)
    ensures MembersDepth(SetKey(ms, key, Value(s))) <= MembersDepth(ms)
    decreases ms
  {
    if ms != [] {
      var r := SetKey(ms, key, Value(s));
      assert r[1..] == SetKey(ms[1..], key, Value(s));
      SetScalarDepth(ms[1..], key, s);
    }
  }

  lemma ZeroPidShallow()
    ensures Shallow(ZeroPid)
  {
    forall j
      ensures Depth(ZeroPid(j)) <= Depth(j)
    {
      if j.Object? {
        SetScalarDepth(j.members, PidKey, Number(0));
      }
    }
  }

  /**
    The result of the pid filter defined directly: in every object reachable
    through object-valued members, each "pid" member holds 0; everything else
    is as it was.
   */
  function ZeroAll(j: Json): Json
    decreases j
  {
    match j
    case Object(ms) => Object(ZeroAllMembers(ms))
    case _ => j
  }

  function ZeroAllMembers(ms: seq<Member>): (r: seq<Member>)
    ensures |r| == |ms|
    decreases ms
  {
    if ms == [] then []
    else
      var m := ms[0];
      var first := if m.key == PidKey then Member(PidKey, Value(Number(0)))
                   else if m.value.Object? then Member(m.key, ZeroAll(m.value))
                   else m;
      [first] + ZeroAllMembers(ms[1..])
  }

  /** transform_objects with the pid visitor computes exactly ZeroAll. */
  lemma {:induction false} ZeroPidTransform(j: Json)
    ensures Shallow(ZeroPid)
    ensures Transform(j, ZeroPid) == ZeroAll(j)
    decreases j
  {
    ZeroPidShallow();
    if j.Object? {
      var ms := j.members;
      var o := ZeroPid(j);
      var r := TransformMembers(o.members, ZeroPid);
      var z := ZeroAllMembers(ms);
      ZeroAllMembersAt(ms);
      forall i | 0 <= i < |ms|
        ensures r[i] == z[i]
      {
        if ms[i].key != PidKey && ms[i].value.Object? {
          ZeroPidTransform(ms[i].value);
        }
      }
    }
  }

  /** ZeroAllMembers member by member. */
  lemma {:induction false} ZeroAllMembersAt(ms: seq<Member>)
    ensures forall i :: 0 <= i < |ms| ==>
              ZeroAllMembers(ms)[i]
              == if ms[i].key == PidKey then Member(PidKey, Value(Number(0)))
                 else if ms[i].value.Object? then Member(ms[i].key, ZeroAll(ms[i].value))
                 else ms[i]
    decreases ms
  {
    if ms != [] {
      ZeroAllMembersAt(ms[1..]);
      var z := ZeroAllMembers(ms);
      assert z[1..] == ZeroAllMembers(ms[1..]);
      forall i | 0 < i < |ms|
        ensures z[i] == z[1..][i - 1]
      {
      }
    }
  }

  /** Every object reachable through object-valued members satisfies `p`. */
  ghost predicate Everywhere(p: seq<Member> -> bool, j: Json)
    decreases j
  {
    j.Object? ==>
      && p(j.members)
      && forall i :: 0 <= i < |j.members| && j.members[i].value.Object? ==> Everywhere(p, j.members[i].value)
  }

  /** Every "pid" member holds 0. */
  predicate PidsAreZero(ms: seq<Member>)
  {
    forall i :: 0 <= i < |ms| && ms[i].key == PidKey ==> ms[i].value == Value(Number(0))
  }

  /** After the pid filter, every reachable object's pid is 0. */
  lemma {:induction false} ZeroAllPids(j: Json)
    ensures Everywhere(PidsAreZero, ZeroAll(j))
    decreases j
  {
    if j.Object? {
      ZeroAllMembersAt(j.members);
      var z := ZeroAll(j).members;
      forall i | 0 <= i < |z| && z[i].value.Object?
        ensures Everywhere(PidsAreZero, z[i].value)
      {
        ZeroAllPids(j.members[i].value);
      }
    }
  }

  /** The pid filter keeps every object's keys in place, so objects without "pid" gain none. */
  lemma ZeroAllKeepsKeys(ms: seq<Member>)
    ensures |ZeroAllMembers(ms)| == |ms|
    ensures forall i :: 0 <= i < |ms| ==> ZeroAllMembers(ms)[i].key == ms[i].key
    ensures HasKey(ZeroAllMembers(ms), PidKey) <==> HasKey(ms, PidKey)
  {
    ZeroAllMembersAt(ms);
    var z := ZeroAllMembers(ms);
    if HasKey(z, PidKey) {
      var i :| 0 <= i < |z| && z[i].key == PidKey;
      assert ms[i].key == PidKey;
    }
    if HasKey(ms, PidKey) {
      var i :| 0 <= i < |ms| && ms[i].key == PidKey;
      assert z[i].key == PidKey;
    }
  }

  /** Applying the pid filter twice is applying it once. */
  lemma {:induction false} ZeroAllIdempotent(j: Json)
    ensures ZeroAll(ZeroAll(j)) == ZeroAll(j)
    decreases j
  {
    if j.Object? {
      var ms := j.members;
      var z := ZeroAllMembers(ms);
      ZeroAllMembersAt(ms);
      ZeroAllMembersAt(z);
      forall i | 0 <= i < |ms|
        ensures ZeroAllMembers(z)[i] == z[i]
      {
        if ms[i].key != PidKey && ms[i].value.Object? {
          ZeroAllIdempotent(ms[i].value);
        }
      }
    }
  }

  /** So two pid-filter passes over the tree give the result of one. */
  lemma ZeroPidTwice(j: Json)
    ensures Shallow(ZeroPid)
    ensures Transform(Transform(j, ZeroPid), ZeroPid) == Transform(j, ZeroPid)
  {
    ZeroPidTransform(j);
    ZeroPidTransform(ZeroAll(j));
    ZeroAllIdempotent(j);
  }

  // ---------------------------------------------------------------------------
  // Chained passes are not one pass with the composed visitor

  /** Gives an empty object a member "x". */
  function Mark(j: Json): Json
  {
    if j == Object([]) then Object([Member("x", Value(Null))]) else j
  }

  /** Replaces an object whose first member is a non-empty object by {"seen": null}. */
  function Seen(j: Json): Json
  {
    if j.Object? && |j.members| > 0 && j.members[0].value.Object? && |j.members[0].value.members| > 0
    then Object([Member("seen", Value(Null))])
    else j
  }

  function SeenAfterMark(j: Json): Json
  {
    Seen(Mark(j))
  }

  lemma MarkSeenShallow()
    ensures Shallow(Mark) && Shallow(Seen) && Shallow(SeenAfterMark)
  {
    forall j
      ensures Depth(Seen(j)) <= Depth(j)
    {
      if Seen(j) != j {
        assert Depth(j.members[0].value) >= 1;
      }
    }
  }

  /**
    A pass with Mark followed by a pass with Seen differs from one pass with
    Seen after Mark on {"a": {}}: the second pass of the chain sees the
    member that the first pass added to the child, one pass does not.
   */
  lemma ChainedNotComposed()
    ensures Shallow(Mark) && Shallow(Seen) && Shallow(SeenAfterMark)
    ensures var j := Object([Member("a", Object([]))]);
            && Transform(Transform(j, Mark), Seen) == Object([Member("seen", Value(Null))])
            && Transform(j, SeenAfterMark) == Object([Member("a", Object([Member("x", Value(Null))]))])
  {
    MarkSeenShallow();
    var j := Object([Member("a", Object([]))]);
    var marked := Object([Member("x", Value(Null))]);
    assert Transform(Object([]), Mark) == marked;
    assert Transform(j, Mark) == Object([Member("a", marked)]);
    assert Transform(Object([]), SeenAfterMark) == marked;
  }

  // ---------------------------------------------------------------------------
  // The filter object

  /** filter_json: holds the tree and rewrites it in place. */
  class Filter {
    var json: Json

    /** The constructor from a tree. */
    constructor (data: Json)
      ensures json == data
    {
      json := data;
    }

    /** to_json */
    function ToJson(): Json
      reads this
    {
      json
    }

    /** transform_objects: rewrites the held tree and returns the same object, so calls chain. */
    method TransformObjects(v: Visitor) returns (self: Filter)
      requires Shallow(v)
      modifies this
      ensures self == this
      ensures json == Transform(old(json), v)
    {
      json := Transform(json, v);
      self := this;
    }
  }
}
