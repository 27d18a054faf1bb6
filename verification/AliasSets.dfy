/**
 lib/Analysis/AliasSetTracker.cpp: pointers gathered into sets that may alias each other, by merging every
 set that a new pointer may alias.  `Sets` holds the records, the sets and their forwarding as one value;
 `Tracking` is what every operation keeps, and it makes the live sets the connected components of the
 may-alias graph.  The class performs the operations.
 */
module AliasSets {
  import opened Wrappers

  type Pointer = nat
  type Metadata = nat
  type SetId = nat

  datatype AliasResult = NoAlias | MayAlias | PartialAlias | MustAlias

  /** A pointer, the size of the access, and a type tag. */
  datatype Location = Location(ptr: Pointer, size: nat, tag: Option<Metadata>)

  /** The tag of a record: none has been given, one has, or several that differ. */
  datatype Tag = Unset | Known(info: Option<Metadata>) | Conflict

  /** What a PointerRec holds (AliasSetTracker.h:38-59). */
  datatype Rec = Rec(size: nat, tag: Tag)

  function LocationOf(p: Pointer, r: Rec): Location {
    Location(p, r.size, if r.tag.Known? then r.tag.info else None)
  }

  function Update(r: Rec, size: nat, tag: Option<Metadata>): Rec {
    Rec(if size > r.size then size else r.size,
        if r.tag.Unset? then Known(tag) else if r.tag == Known(tag) then r.tag else Conflict)
  }

  /** An updated record covers the larger access, and has a tag as long as all accesses had the same one. */
  lemma UpdateCovers(r: Rec, size: nat, tag: Option<Metadata>)
    ensures Update(r, size, tag).size >= r.size && Update(r, size, tag).size >= size
    ensures Update(r, size, tag).size in {r.size, size}
    ensures Update(r, size, tag).tag == Known(tag) <==> r.tag == Unset || r.tag == Known(tag)
    ensures Update(r, size, tag).tag != Known(tag) ==> Update(r, size, tag).tag == Conflict
    ensures Update(Update(r, size, tag), size, tag) == Update(r, size, tag)
  {
  }

  type Oracle = (Location, Location) -> AliasResult

  ghost predicate May(o: Oracle, a: Location, b: Location) {
    o(a, b) != NoAlias
  }

  /**
   The answers do not depend on the order of the locations; and locations that must alias are interchangeable:
   a record that has been updated with the one stands for both.
   */
  ghost predicate Interchangeable(o: Oracle) {
    && (forall a, b {:trigger May(o, a, b)} :: May(o, a, b) <==> May(o, b, a))
    && (forall p, r, l, x {:trigger May(o, LocationOf(p, Update(r, l.size, l.tag)), x)} :: o(LocationOf(p, r), l) == MustAlias ==>
      (May(o, LocationOf(p, Update(r, l.size, l.tag)), x) <==> May(o, LocationOf(p, r), x) || May(o, l, x)))
  }

  // ---------------------------------------------------------------- connected components

  type Own = map<Pointer, Location>

  ghost predicate Linked(o: Oracle, own: Own, path: seq<Pointer>) {
    && path != [] && (forall i :: 0 <= i < |path| ==> path[i] in own)
    && (forall i :: 0 <= i < |path| - 1 ==> LinkAt(o, own, path, i))
  }

  ghost predicate LinkAt(o: Oracle, own: Own, path: seq<Pointer>, i: nat)
    requires i + 1 < |path|
  {
    path[i] in own && path[i + 1] in own && May(o, own[path[i]], own[path[i + 1]])
  }

  ghost predicate LinkedFrom(o: Oracle, own: Own, path: seq<Pointer>, a: Pointer, b: Pointer) {
    Linked(o, own, path) && path[0] == a && path[|path| - 1] == b
  }

  /** `a` and `b` are in the same connected component of the may-alias graph. */
  ghost predicate Connected(o: Oracle, own: Own, a: Pointer, b: Pointer) {
    exists path :: LinkedFrom(o, own, path, a, b)
  }

  lemma ConnectedSelf(o: Oracle, own: Own, a: Pointer)
    requires a in own
    ensures Connected(o, own, a, a)
  {
    assert LinkedFrom(o, own, [a], a, a);
  }

  lemma ConnectedEdge(o: Oracle, own: Own, a: Pointer, b: Pointer)
    requires a in own && b in own && May(o, own[a], own[b])
    ensures Connected(o, own, a, b)
  {
    var path := [a, b];
    assert LinkAt(o, own, path, 0);
    assert LinkedFrom(o, own, path, a, b);
  }

  lemma ConnectedTrans(o: Oracle, own: Own, a: Pointer, b: Pointer, c: Pointer)
    requires Connected(o, own, a, b) && Connected(o, own, b, c)
    ensures Connected(o, own, a, c)
  {
    var p :| LinkedFrom(o, own, p, a, b);
    var q :| LinkedFrom(o, own, q, b, c);
    var r := p + q[1..];
    forall i | 0 <= i < |r| - 1 ensures LinkAt(o, own, r, i) {
      if i < |p| - 1 {
        assert LinkAt(o, own, p, i);
      } else {
        var k := i - (|p| - 1);
        assert LinkAt(o, own, q, k);
        assert r[i] == q[k] && r[i + 1] == q[k + 1];
      }
    }
    assert LinkedFrom(o, own, r, a, c);
  }

  lemma ConnectedMore(o: Oracle, own: Own, own': Own, a: Pointer, b: Pointer)
    requires Connected(o, own, a, b) && forall p :: p in own ==> p in own' && own'[p] == own[p]
    ensures Connected(o, own', a, b)
  {
    var path :| LinkedFrom(o, own, path, a, b);
    forall i | 0 <= i < |path| - 1 ensures LinkAt(o, own', path, i) {
      assert LinkAt(o, own, path, i);
    }
    assert LinkedFrom(o, own', path, a, b);
  }

  // ---------------------------------------------------------------- the sets

  /**
   The tracker: a record for each pointer, the set it was put into, the pointers of each set in order, the
   set that each merged set forwards to, which sets are may-alias sets, and the number of sets.
   */
  datatype Sets = Sets(recs: map<Pointer, Rec>, setOf: map<Pointer, SetId>, lists: map<SetId, seq<Pointer>>,
                       forward: map<SetId, SetId>, may: map<SetId, bool>, count: nat)

  ghost predicate Live(s: Sets, i: SetId) {
    i < s.count && i !in s.forward
  }

  ghost predicate ForwardOk(s: Sets) {
    && (forall i :: i in s.forward ==> s.forward[i] < i < s.count)
    && (forall i: SetId :: i in s.lists <==> i < s.count) && s.may.Keys == s.lists.Keys
  }

  /** Where a set forwards to in the end. */
  ghost function Target(s: Sets, i: SetId): (r: SetId)
    requires ForwardOk(s) && i < s.count
    ensures Live(s, r) && r <= i
  {
    if i in s.forward then Target(s, s.forward[i]) else i
  }

  ghost predicate InSet(s: Sets, p: Pointer, i: SetId) {
    i in s.lists && p in s.lists[i]
  }

  /** Each pointer is in exactly one live set: the one that the set it was put into forwards to. */
  ghost predicate Placed(s: Sets) {
    && ForwardOk(s) && s.setOf.Keys == s.recs.Keys
    && (forall p :: p in s.setOf ==> s.setOf[p] < s.count)
    && (forall p, i :: Live(s, i) ==> (InSet(s, p, i) <==> p in s.setOf && Target(s, s.setOf[p]) == i))
    && (forall i :: Live(s, i) ==> s.lists[i] != [])
  }

  function Stored(s: Sets, p: Pointer): Location
    requires p in s.recs
  {
    LocationOf(p, s.recs[p])
  }

  /** One of the pointers of set `i` may alias `x`. */
  ghost predicate Touches(o: Oracle, own: Own, s: Sets, i: SetId, x: Location) {
    exists m :: InSet(s, m, i) && m in own && May(o, own[m], x)
  }

  ghost predicate SomeTouches(o: Oracle, own: Own, s: Sets, x: Location) {
    exists i :: Live(s, i) && Touches(o, own, s, i, x)
  }

  ghost predicate StoredTouches(o: Oracle, s: Sets, i: SetId, x: Location) {
    exists m :: InSet(s, m, i) && m in s.recs && May(o, Stored(s, m), x)
  }

  /** The records of a set answer for its pointers; in a must-alias set the first alone does. */
  ghost predicate Faithful(o: Oracle, own: Own, s: Sets, i: SetId) {
    forall x {:trigger Touches(o, own, s, i, x)} {:trigger StoredTouches(o, s, i, x)} ::
      && (Touches(o, own, s, i, x) <==> StoredTouches(o, s, i, x))
      && (i in s.may && !s.may[i] && i in s.lists && s.lists[i] != [] && s.lists[i][0] in s.recs ==>
        (Touches(o, own, s, i, x) <==> May(o, Stored(s, s.lists[i][0]), x)))
  }

  ghost predicate AllFaithful(o: Oracle, own: Own, s: Sets) {
    forall i :: Live(s, i) ==> Faithful(o, own, s, i)
  }

  /** Pointers of different sets do not alias. */
  ghost predicate Apart(o: Oracle, own: Own, s: Sets) {
    forall i, j, m :: Live(s, i) && Live(s, j) && i != j && InSet(s, m, i) && m in own ==> !Touches(o, own, s, j, own[m])
  }

  /** Pointers of one set are connected. */
  ghost predicate Together(o: Oracle, own: Own, s: Sets) {
    forall i, m, n :: Live(s, i) && InSet(s, m, i) && InSet(s, n, i) ==> Connected(o, own, m, n)
  }

  /** A record covers at least what its pointer has been added with. */
  ghost predicate RecsOk(own: Own, s: Sets) {
    && own.Keys == s.recs.Keys
    && (forall p :: p in own ==>
      own[p].ptr == p && s.recs[p].size >= own[p].size && (s.recs[p].tag == Known(own[p].tag) || s.recs[p].tag == Conflict))
  }

  /** The invariant; pointers of one set are connected if `own1` are taken to be the pointers. */
  ghost predicate TrackingFor(o: Oracle, own: Own, own1: Own, s: Sets) {
    RecsOk(own, s) && Placed(s) && AllFaithful(o, own, s) && Apart(o, own, s) && Together(o, own1, s)
  }

  ghost predicate Tracking(o: Oracle, own: Own, s: Sets) {
    TrackingFor(o, own, own, s)
  }

  lemma SomeSet(s: Sets, p: Pointer)
    requires Placed(s) && p in s.setOf
    ensures Live(s, Target(s, s.setOf[p])) && InSet(s, p, Target(s, s.setOf[p]))
  {
  }

  /** A chain of aliasing pointers does not leave a set. */
  lemma {:induction false} PathInSet(o: Oracle, own: Own, s: Sets, path: seq<Pointer>, k: nat, i: SetId)
    requires Tracking(o, own, s) && Linked(o, own, path) && k < |path| && Live(s, i) && InSet(s, path[0], i)
    ensures InSet(s, path[k], i)
  {
    if k > 0 {
      PathInSet(o, own, s, path, k - 1, i);
      assert LinkAt(o, own, path, k - 1);
      SomeSet(s, path[k]);
      var j := Target(s, s.setOf[path[k]]);
      if i != j {
        assert Touches(o, own, s, i, own[path[k]]);
      }
    }
  }

  /** The live sets are exactly the connected components of the may-alias graph. */
  lemma SetsAreComponents(o: Oracle, own: Own, s: Sets, a: Pointer, b: Pointer)
    requires Tracking(o, own, s) && a in own && b in own
    ensures a in s.setOf && b in s.setOf
    ensures Target(s, s.setOf[a]) == Target(s, s.setOf[b]) <==> Connected(o, own, a, b)
  {
    SomeSet(s, a);
    SomeSet(s, b);
    if path :| LinkedFrom(o, own, path, a, b) {
      PathInSet(o, own, s, path, |path| - 1, Target(s, s.setOf[a]));
    }
  }

  // ---------------------------------------------------------------- merging

  /** Set `i` goes into set `f`, which becomes a may-alias set. */
  function Merged(s: Sets, f: SetId, i: SetId): Sets
    requires f in s.lists && i in s.lists
  {
    s.(lists := s.lists[f := s.lists[f] + s.lists[i]][i := []], forward := s.forward[i := f], may := s.may[f := true])
  }

  lemma {:induction false} MergedTarget(s: Sets, f: SetId, i: SetId, j: SetId)
    requires ForwardOk(s) && Live(s, f) && Live(s, i) && f < i && j < s.count && ForwardOk(Merged(s, f, i))
    ensures Target(Merged(s, f, i), j) == if Target(s, j) == i then f else Target(s, j)
    decreases j
  {
    if j in s.forward {
      MergedTarget(s, f, i, s.forward[j]);
    }
  }

  lemma MergedForward(s: Sets, f: SetId, i: SetId)
    requires ForwardOk(s) && Live(s, f) && Live(s, i) && f < i
    ensures ForwardOk(Merged(s, f, i))
    ensures forall j :: Live(Merged(s, f, i), j) <==> Live(s, j) && j != i
    ensures forall p, j :: j != i ==> (InSet(Merged(s, f, i), p, j) <==> InSet(s, p, j) || (j == f && InSet(s, p, i)))
  {
  }

  lemma MergedPlaced(s: Sets, f: SetId, i: SetId)
    requires Placed(s) && Live(s, f) && Live(s, i) && f < i
    ensures Placed(Merged(s, f, i))
  {
    MergedForward(s, f, i);
    var s' := Merged(s, f, i);
    hide InSet;
    forall p, j | Live(s', j) ensures InSet(s', p, j) <==> p in s'.setOf && Target(s', s'.setOf[p]) == j {
      if p in s.setOf {
        MergedTarget(s, f, i, s.setOf[p]);
      }
    }
  }

  lemma MergedTouches(o: Oracle, own: Own, s: Sets, f: SetId, i: SetId, j: SetId, x: Location)
    requires ForwardOk(s) && Live(s, f) && Live(s, i) && f < i && j != i
    ensures Touches(o, own, Merged(s, f, i), j, x) <==> Touches(o, own, s, j, x) || (j == f && Touches(o, own, s, i, x))
    ensures StoredTouches(o, Merged(s, f, i), j, x) <==> StoredTouches(o, s, j, x) || (j == f && StoredTouches(o, s, i, x))
  {
    MergedForward(s, f, i);
    hide InSet, May;
    var s' := Merged(s, f, i);
    assert s'.recs == s.recs;
  }

  lemma MergedFaithful(o: Oracle, own: Own, s: Sets, f: SetId, i: SetId)
    requires Placed(s) && AllFaithful(o, own, s) && Live(s, f) && Live(s, i) && f < i
    ensures AllFaithful(o, own, Merged(s, f, i))
  {
    var s' := Merged(s, f, i);
    MergedForward(s, f, i);
    hide Touches, StoredTouches, May, InSet, Placed;
    forall j | Live(s', j) ensures Faithful(o, own, s', j) {
      assert Faithful(o, own, s, j) && Faithful(o, own, s, i);
      assert j != f ==> s'.lists[j] == s.lists[j];
      forall x ensures (Touches(o, own, s', j, x) <==> StoredTouches(o, s', j, x)) && (Touches(o, own, s', j, x) <==> Touches(o, own, s, j, x) || (j == f && Touches(o, own, s, i, x))) {
        MergedTouches(o, own, s, f, i, j, x);
      }
    }
  }

  lemma MergedApart(o: Oracle, own: Own, s: Sets, f: SetId, i: SetId)
    requires Interchangeable(o) && Placed(s) && Apart(o, own, s) && Live(s, f) && Live(s, i) && f < i
    ensures Apart(o, own, Merged(s, f, i))
  {
    var s' := Merged(s, f, i);
    MergedForward(s, f, i);
    hide Touches, StoredTouches, May, InSet, Placed, Interchangeable;
    forall a, b, m | Live(s', a) && Live(s', b) && a != b && InSet(s', m, a) && m in own ensures !Touches(o, own, s', b, own[m]) {
      MergedTouches(o, own, s, f, i, b, own[m]);
    }
  }

  /** Pointer `p` connects two sets that it may alias. */
  lemma ConnectedVia(o: Oracle, own: Own, own1: Own, s: Sets, f: SetId, i: SetId, p: Pointer, m: Pointer, n: Pointer)
    requires Interchangeable(o) && Together(o, own1, s) && p in own1 && forall q :: q in own ==> q in own1 && own1[q] == own[q]
    requires Live(s, f) && Live(s, i) && Touches(o, own, s, f, own1[p]) && Touches(o, own, s, i, own1[p])
    requires InSet(s, m, f) && InSet(s, n, i)
    ensures Connected(o, own1, m, n)
  {
    var a :| InSet(s, a, f) && a in own && May(o, own[a], own1[p]);
    var b :| InSet(s, b, i) && b in own && May(o, own[b], own1[p]);
    assert May(o, own1[p], own1[b]);
    ConnectedEdge(o, own1, a, p);
    ConnectedEdge(o, own1, p, b);
    hide Connected, Interchangeable;
    ConnectedTrans(o, own1, m, a, p);
    ConnectedTrans(o, own1, m, p, b);
    ConnectedTrans(o, own1, m, b, n);
  }

  lemma MergedTogether(o: Oracle, own: Own, own1: Own, s: Sets, f: SetId, i: SetId, p: Pointer)
    requires Interchangeable(o) && Placed(s) && Together(o, own1, s) && p in own1 && forall q :: q in own ==> q in own1 && own1[q] == own[q]
    requires Live(s, f) && Live(s, i) && f < i && Touches(o, own, s, f, own1[p]) && Touches(o, own, s, i, own1[p])
    ensures Together(o, own1, Merged(s, f, i))
  {
    var s' := Merged(s, f, i);
    MergedForward(s, f, i);
    hide InSet, Touches, Placed, Interchangeable, Connected;
    forall j, m, n | Live(s', j) && InSet(s', m, j) && InSet(s', n, j) ensures Connected(o, own1, m, n) {
      if j == f {
        if InSet(s, m, f) && InSet(s, n, i) {
          ConnectedVia(o, own, own1, s, f, i, p, m, n);
        } else if InSet(s, m, i) && InSet(s, n, f) {
          ConnectedVia(o, own, own1, s, i, f, p, m, n);
        }
      }
    }
  }

  /** Two sets that a pointer `p` may alias are merged. */
  lemma MergeKeeps(o: Oracle, own: Own, own1: Own, s: Sets, f: SetId, i: SetId, p: Pointer)
    requires Interchangeable(o) && TrackingFor(o, own, own1, s) && p in own1 && forall q :: q in own ==> q in own1 && own1[q] == own[q]
    requires Live(s, f) && Live(s, i) && f < i && Touches(o, own, s, f, own1[p]) && Touches(o, own, s, i, own1[p])
    ensures TrackingFor(o, own, own1, Merged(s, f, i))
  {
    hide Interchangeable, Touches, Placed, AllFaithful, Apart, Together, Live;
    MergedPlaced(s, f, i);
    MergedFaithful(o, own, s, f, i);
    MergedApart(o, own, s, f, i);
    MergedTogether(o, own, own1, s, f, i, p);
  }

  /** The first pointers of two must-alias sets never must alias: the sets would be one already. */
  lemma HeadsApart(o: Oracle, own: Own, s: Sets, f: SetId, i: SetId)
    requires Interchangeable(o) && Placed(s) && AllFaithful(o, own, s) && Apart(o, own, s) && own.Keys == s.recs.Keys
    requires Live(s, f) && Live(s, i) && f != i && !s.may[f] && !s.may[i]
    ensures s.lists[f] != [] && s.lists[i] != [] && s.lists[f][0] in s.recs && s.lists[i][0] in s.recs
    ensures !May(o, Stored(s, s.lists[f][0]), Stored(s, s.lists[i][0]))
  {
    var a, b := s.lists[f][0], s.lists[i][0];
    assert InSet(s, a, f) && InSet(s, b, i);
    assert Faithful(o, own, s, f) && Faithful(o, own, s, i);
    var x, y := Stored(s, a), Stored(s, b);
    forall m | InSet(s, m, f) && m in own ensures !May(o, own[m], y) {
      assert !Touches(o, own, s, i, own[m]);
      assert May(o, y, own[m]) <==> May(o, own[m], y);
    }
    assert !Touches(o, own, s, f, y);
  }

  // ---------------------------------------------------------------- adding

  /** Pointer `p` goes into set `f`; if the set stays a must-alias set its first record is updated. */
  function Joined(s: Sets, f: SetId, p: Pointer, l: Location, must: bool): Sets
    requires f in s.lists && s.lists[f] != [] && s.lists[f][0] in s.recs && s.lists[f][0] != p
  {
    var head := s.lists[f][0];
    var recs := if must then s.recs[head := Update(s.recs[head], l.size, l.tag)] else s.recs;
    s.(recs := recs[p := Update(Rec(0, Unset), l.size, l.tag)], setOf := s.setOf[p := f],
       lists := s.lists[f := s.lists[f] + [p]], may := if must then s.may else s.may[f := true])
  }

  lemma {:induction false} SameForward(s: Sets, s': Sets, j: SetId)
    requires ForwardOk(s) && ForwardOk(s') && s'.forward == s.forward && s.count <= s'.count && j < s.count
    ensures Target(s', j) == Target(s, j)
    decreases j
  {
    if j in s.forward {
      SameForward(s, s', s.forward[j]);
    }
  }

  lemma JoinedPlaced(s: Sets, f: SetId, p: Pointer, l: Location, must: bool)
    requires Placed(s) && Live(s, f) && p !in s.setOf
    ensures s.lists[f] != [] && s.lists[f][0] in s.recs && s.lists[f][0] != p
    ensures Placed(Joined(s, f, p, l, must))
  {
    assert InSet(s, s.lists[f][0], f);
    var s' := Joined(s, f, p, l, must);
    assert Target(s', f) == f;
    forall q, i | Live(s', i) ensures InSet(s', q, i) <==> q in s'.setOf && Target(s', s'.setOf[q]) == i {
      assert InSet(s', q, i) <==> InSet(s, q, i) || (q == p && i == f);
      if q in s.setOf {
        SameForward(s, s', s.setOf[q]);
      } else {
        assert !InSet(s, q, i);
      }
    }
  }

  lemma JoinedTouches(o: Oracle, own: Own, s: Sets, f: SetId, p: Pointer, l: Location, must: bool, j: SetId, x: Location)
    requires Placed(s) && Live(s, f) && Live(s, j) && p !in s.setOf && p !in own && own.Keys == s.recs.Keys
    requires s.lists[f] != [] && s.lists[f][0] in s.recs && s.lists[f][0] != p
    ensures Touches(o, own[p := l], Joined(s, f, p, l, must), j, x) <==> Touches(o, own, s, j, x) || (j == f && May(o, l, x))
  {
    var s', own' := Joined(s, f, p, l, must), own[p := l];
    hide May;
    forall m ensures InSet(s', m, j) <==> InSet(s, m, j) || (j == f && m == p) {
    }
    assert !InSet(s, p, j);
    if j == f && May(o, l, x) {
      assert InSet(s', p, f) && May(o, own'[p], x);
    }
    if m :| InSet(s, m, j) && m in own && May(o, own[m], x) {
      assert InSet(s', m, j) && May(o, own'[m], x);
    }
  }

  lemma JoinedStored(o: Oracle, s: Sets, f: SetId, p: Pointer, l: Location, must: bool, j: SetId, x: Location)
    requires Interchangeable(o) && Placed(s) && Live(s, f) && Live(s, j) && p !in s.setOf && l.ptr == p
    requires s.lists[f] != [] && s.lists[f][0] in s.recs && s.lists[f][0] != p
    requires must ==> o(Stored(s, s.lists[f][0]), l) == MustAlias
    ensures StoredTouches(o, Joined(s, f, p, l, must), j, x) <==> StoredTouches(o, s, j, x) || (j == f && May(o, l, x))
    ensures must ==> (May(o, Stored(Joined(s, f, p, l, must), s.lists[f][0]), x) <==> May(o, Stored(s, s.lists[f][0]), x) || May(o, l, x))
  {
    var s', head := Joined(s, f, p, l, must), s.lists[f][0];
    assert Stored(s', p) == l;
    assert InSet(s, head, f);
    forall m ensures InSet(s', m, j) <==> InSet(s, m, j) || (j == f && m == p) {
    }
    assert !InSet(s, p, j);
    forall m | InSet(s, m, j) ensures m in s.recs && m != p && (m == head ==> j == f) {
    }
    assert must ==> Stored(s', head) == LocationOf(head, Update(s.recs[head], l.size, l.tag));
    assert must ==> (May(o, Stored(s', head), x) <==> May(o, Stored(s, head), x) || May(o, l, x));
    forall m | m in s.recs && m != p && !(must && m == head) ensures Stored(s', m) == Stored(s, m) {
    }
    hide May, Interchangeable, Placed, InSet;
    if j == f && May(o, l, x) {
      assert InSet(s', p, f) && May(o, Stored(s', p), x);
    }
    if m :| InSet(s, m, j) && m in s.recs && May(o, Stored(s, m), x) {
      assert InSet(s', m, j) && May(o, Stored(s', m), x);
    }
    if m :| InSet(s', m, j) && m in s'.recs && May(o, Stored(s', m), x) {
      if m != p && !(must && m == head) {
        assert InSet(s, m, j) && May(o, Stored(s, m), x);
      }
    }
  }

  lemma JoinedFaithful(o: Oracle, own: Own, s: Sets, f: SetId, p: Pointer, l: Location, must: bool)
    requires Interchangeable(o) && Placed(s) && AllFaithful(o, own, s) && own.Keys == s.recs.Keys
    requires Live(s, f) && p !in s.setOf && l.ptr == p
    requires s.lists[f] != [] && s.lists[f][0] in s.recs && s.lists[f][0] != p
    requires must ==> !s.may[f] && o(Stored(s, s.lists[f][0]), l) == MustAlias
    ensures AllFaithful(o, own[p := l], Joined(s, f, p, l, must))
  {
    var s' := Joined(s, f, p, l, must);
    forall j | Live(s', j) ensures Faithful(o, own[p := l], s', j) {
      JoinedFaithfulAt(o, own, s, f, p, l, must, j);
    }
  }

  lemma JoinedFaithfulAt(o: Oracle, own: Own, s: Sets, f: SetId, p: Pointer, l: Location, must: bool, j: SetId)
    requires Interchangeable(o) && Placed(s) && AllFaithful(o, own, s) && own.Keys == s.recs.Keys
    requires Live(s, f) && p !in s.setOf && l.ptr == p && Live(Joined(s, f, p, l, must), j)
    requires s.lists[f] != [] && s.lists[f][0] in s.recs && s.lists[f][0] != p
    requires must ==> !s.may[f] && o(Stored(s, s.lists[f][0]), l) == MustAlias
    ensures Faithful(o, own[p := l], Joined(s, f, p, l, must), j)
  {
    var s' := Joined(s, f, p, l, must);
    assert Live(s, j) && Faithful(o, own, s, j);
    HeadKept(s, f, p, l, must, j);
    hide Touches, StoredTouches, May, InSet, Placed, Interchangeable;
    forall x {:trigger Touches(o, own[p := l], s', j, x)}
      ensures Touches(o, own[p := l], s', j, x) <==> StoredTouches(o, s', j, x)
      ensures !s'.may[j] ==> (Touches(o, own[p := l], s', j, x) <==> May(o, Stored(s', s'.lists[j][0]), x))
    {
      JoinedTouches(o, own, s, f, p, l, must, j, x);
      JoinedStored(o, s, f, p, l, must, j, x);
      assert Touches(o, own, s, j, x) <==> StoredTouches(o, s, j, x);
    }
  }

  lemma HeadKept(s: Sets, f: SetId, p: Pointer, l: Location, must: bool, j: SetId)
    requires Placed(s) && Live(s, f) && Live(s, j) && p !in s.setOf
    requires s.lists[f] != [] && s.lists[f][0] in s.recs && s.lists[f][0] != p
    ensures s.lists[j] != [] && j in s.may && s.lists[j][0] in s.recs && s.lists[j][0] != p
    ensures Joined(s, f, p, l, must).lists[j] != [] && Joined(s, f, p, l, must).lists[j][0] == s.lists[j][0]
    ensures j != f ==> Stored(Joined(s, f, p, l, must), s.lists[j][0]) == Stored(s, s.lists[j][0])
  {
    assert InSet(s, s.lists[j][0], j) && InSet(s, s.lists[f][0], f);
  }

  lemma JoinedApart(o: Oracle, own: Own, s: Sets, f: SetId, p: Pointer, l: Location, must: bool)
    requires Interchangeable(o) && Placed(s) && Apart(o, own, s) && own.Keys == s.recs.Keys && Live(s, f) && p !in s.setOf
    requires s.lists[f] != [] && s.lists[f][0] in s.recs && s.lists[f][0] != p
    requires forall j :: Live(s, j) && j != f ==> !Touches(o, own, s, j, l)
    ensures Apart(o, own[p := l], Joined(s, f, p, l, must))
  {
    var s', own' := Joined(s, f, p, l, must), own[p := l];
    forall i, j, m | Live(s', i) && Live(s', j) && i != j && InSet(s', m, i) && m in own' ensures !Touches(o, own', s', j, own'[m]) {
      JoinedTouches(o, own, s, f, p, l, must, j, own'[m]);
      if m == p {
        assert i == f by {
          assert !InSet(s, p, i);
        }
      } else {
        assert InSet(s, m, i) && m in own && own'[m] == own[m];
        if j == f {
          assert !Touches(o, own, s, i, l);
          assert May(o, own[m], l) <==> May(o, l, own[m]);
        }
      }
    }
  }

  lemma JoinedTogether(o: Oracle, own: Own, s: Sets, f: SetId, p: Pointer, l: Location, must: bool)
    requires Interchangeable(o) && Placed(s) && Together(o, own[p := l], s) && own.Keys == s.recs.Keys && Live(s, f) && p !in s.setOf
    requires s.lists[f] != [] && s.lists[f][0] in s.recs && s.lists[f][0] != p
    requires Touches(o, own, s, f, l)
    ensures Together(o, own[p := l], Joined(s, f, p, l, must))
  {
    var s', own' := Joined(s, f, p, l, must), own[p := l];
    var a :| InSet(s, a, f) && a in own && May(o, own[a], l);
    assert own'[a] == own[a] && May(o, l, own[a]);
    ConnectedEdge(o, own', a, p);
    ConnectedEdge(o, own', p, a);
    ConnectedSelf(o, own', p);
    hide Connected, May, Touches;
    forall i, m, n | Live(s', i) && InSet(s', m, i) && InSet(s', n, i) ensures Connected(o, own', m, n) {
      assert m != p ==> InSet(s, m, i);
      assert n != p ==> InSet(s, n, i);
      assert m == p || n == p ==> i == f by {
        assert !InSet(s, p, i);
      }
      if m == p && n != p {
        ConnectedTrans(o, own', p, a, n);
      } else if m != p && n == p {
        ConnectedTrans(o, own', m, a, p);
      }
    }
  }

  lemma JoinedRecs(own: Own, s: Sets, f: SetId, p: Pointer, l: Location, must: bool)
    requires RecsOk(own, s) && p !in own && l.ptr == p
    requires f in s.lists && s.lists[f] != [] && s.lists[f][0] in s.recs && s.lists[f][0] != p
    ensures RecsOk(own[p := l], Joined(s, f, p, l, must))
  {
  }

  /** A new pointer joins the one set it may alias. */
  lemma JoinKeeps(o: Oracle, own: Own, s: Sets, f: SetId, p: Pointer, l: Location, must: bool)
    requires Interchangeable(o) && TrackingFor(o, own, own[p := l], s) && Live(s, f) && p !in s.setOf && l.ptr == p
    requires Touches(o, own, s, f, l) && forall j :: Live(s, j) && j != f ==> !Touches(o, own, s, j, l)
    requires s.lists[f] != [] && s.lists[f][0] in s.recs && s.lists[f][0] != p
    requires must ==> !s.may[f] && o(Stored(s, s.lists[f][0]), l) == MustAlias
    ensures Tracking(o, own[p := l], Joined(s, f, p, l, must))
  {
    assert own.Keys == s.recs.Keys && s.setOf.Keys == s.recs.Keys;
    hide Interchangeable, Touches, Placed, AllFaithful, Apart, Together, RecsOk, Joined;
    JoinedPlaced(s, f, p, l, must);
    JoinedFaithful(o, own, s, f, p, l, must);
    JoinedApart(o, own, s, f, p, l, must);
    JoinedTogether(o, own, s, f, p, l, must);
    JoinedRecs(own, s, f, p, l, must);
  }

  /** A new pointer that no set may alias gets a set of its own. */
  function Alone(s: Sets, p: Pointer, l: Location): Sets {
    Sets(s.recs[p := Update(Rec(0, Unset), l.size, l.tag)], s.setOf[p := s.count], s.lists[s.count := [p]], s.forward,
         s.may[s.count := false], s.count + 1)
  }

  lemma AloneSets(s: Sets, p: Pointer, l: Location)
    requires Placed(s) && p !in s.setOf
    ensures forall j :: Live(Alone(s, p, l), j) <==> Live(s, j) || j == s.count
    ensures forall q, j :: Live(Alone(s, p, l), j) ==> (InSet(Alone(s, p, l), q, j) <==> if j == s.count then q == p else InSet(s, q, j))
    ensures forall q, j :: Live(s, j) && InSet(s, q, j) ==> q in s.recs && q != p
  {
  }

  lemma AlonePlaced(s: Sets, p: Pointer, l: Location)
    requires Placed(s) && p !in s.setOf
    ensures Placed(Alone(s, p, l))
    ensures forall j :: Live(Alone(s, p, l), j) <==> Live(s, j) || j == s.count
    ensures forall q, j :: Live(Alone(s, p, l), j) ==> (InSet(Alone(s, p, l), q, j) <==> if j == s.count then q == p else InSet(s, q, j))
    ensures forall q, j :: Live(s, j) && InSet(s, q, j) ==> q in s.recs && q != p
  {
    var s' := Alone(s, p, l);
    AloneSets(s, p, l);
    assert ForwardOk(s') && Target(s', s.count) == s.count;
    hide InSet;
    forall q, i | Live(s', i) ensures InSet(s', q, i) <==> q in s'.setOf && Target(s', s'.setOf[q]) == i {
      if q in s.setOf {
        SameForward(s, s', s.setOf[q]);
      }
    }
  }

  lemma AloneTouches(o: Oracle, own: Own, s: Sets, p: Pointer, l: Location, j: SetId, x: Location)
    requires Placed(s) && p !in s.setOf && own.Keys == s.recs.Keys && l.ptr == p && Live(Alone(s, p, l), j)
    ensures Touches(o, own[p := l], Alone(s, p, l), j, x) <==> if j == s.count then May(o, l, x) else Touches(o, own, s, j, x)
    ensures StoredTouches(o, Alone(s, p, l), j, x) <==> if j == s.count then May(o, l, x) else StoredTouches(o, s, j, x)
  {
    AlonePlaced(s, p, l);
    var s', own' := Alone(s, p, l), own[p := l];
    assert Stored(s', p) == l;
    hide InSet, May, Placed;
    if j == s.count {
      assert InSet(s', p, j);
    } else {
      assert forall m :: InSet(s', m, j) ==> own'[m] == own[m] && Stored(s', m) == Stored(s, m);
    }
  }

  lemma AloneFaithful(o: Oracle, own: Own, s: Sets, p: Pointer, l: Location)
    requires Placed(s) && AllFaithful(o, own, s) && p !in s.setOf && own.Keys == s.recs.Keys && l.ptr == p
    ensures AllFaithful(o, own[p := l], Alone(s, p, l))
  {
    AlonePlaced(s, p, l);
    var s', own' := Alone(s, p, l), own[p := l];
    forall j | Live(s', j) ensures Faithful(o, own', s', j) {
      if j != s.count {
        assert Faithful(o, own, s, j) && s.lists[j] != [];
        assert InSet(s, s.lists[j][0], j);
      }
      hide Touches, StoredTouches, May, InSet, Placed;
      forall x
        ensures Touches(o, own', s', j, x) <==> if j == s.count then May(o, l, x) else Touches(o, own, s, j, x)
        ensures StoredTouches(o, s', j, x) <==> if j == s.count then May(o, l, x) else StoredTouches(o, s, j, x)
      {
        AloneTouches(o, own, s, p, l, j, x);
      }
    }
  }

  lemma AloneApart(o: Oracle, own: Own, s: Sets, p: Pointer, l: Location)
    requires Interchangeable(o) && Placed(s) && Apart(o, own, s) && p !in s.setOf && own.Keys == s.recs.Keys && l.ptr == p
    requires forall j :: Live(s, j) ==> !Touches(o, own, s, j, l)
    ensures Apart(o, own[p := l], Alone(s, p, l))
  {
    AlonePlaced(s, p, l);
    var s', own' := Alone(s, p, l), own[p := l];
    forall i, j, m | Live(s', i) && Live(s', j) && i != j && InSet(s', m, i) && m in own' ensures !Touches(o, own', s', j, own'[m]) {
      AloneTouches(o, own, s, p, l, j, own'[m]);
      if i != s.count {
        assert InSet(s, m, i) && m in own && own'[m] == own[m];
        if j == s.count {
          assert !Touches(o, own, s, i, l);
          assert May(o, own[m], l) <==> May(o, l, own[m]);
        }
      }
    }
  }

  lemma AloneTogether(o: Oracle, own: Own, s: Sets, p: Pointer, l: Location)
    requires Placed(s) && Together(o, own[p := l], s) && p !in s.setOf
    ensures Together(o, own[p := l], Alone(s, p, l))
  {
    AlonePlaced(s, p, l);
    ConnectedSelf(o, own[p := l], p);
  }

  lemma AloneKeeps(o: Oracle, own: Own, s: Sets, p: Pointer, l: Location)
    requires Interchangeable(o) && TrackingFor(o, own, own[p := l], s) && p !in s.setOf && l.ptr == p
    requires forall j :: Live(s, j) ==> !Touches(o, own, s, j, l)
    ensures Tracking(o, own[p := l], Alone(s, p, l))
  {
    assert own.Keys == s.recs.Keys;
    assert RecsOk(own[p := l], Alone(s, p, l));
    hide Interchangeable, Touches, Placed, AllFaithful, Apart, Together, RecsOk, Alone;
    AlonePlaced(s, p, l);
    AloneFaithful(o, own, s, p, l);
    AloneApart(o, own, s, p, l);
    AloneTogether(o, own, s, p, l);
  }

  /** Until it is in a set, the new pointer only helps to connect others. */
  lemma OneMorePointer(o: Oracle, own: Own, s: Sets, p: Pointer, l: Location)
    requires Tracking(o, own, s) && p !in own
    ensures TrackingFor(o, own, own[p := l], s)
  {
    forall i, m, n | Live(s, i) && InSet(s, m, i) && InSet(s, n, i) ensures Connected(o, own[p := l], m, n) {
      ConnectedMore(o, own, own[p := l], m, n);
    }
  }

  // ---------------------------------------------------------------- collapsing

  /** Set `i` forwards straight to where it forwards to in the end. */
  lemma {:induction false} CollapsedTarget(s: Sets, i: SetId, j: SetId)
    requires ForwardOk(s) && i in s.forward && j < s.count
    ensures ForwardOk(s.(forward := s.forward[i := Target(s, i)]))
    ensures Target(s.(forward := s.forward[i := Target(s, i)]), j) == Target(s, j)
    decreases j
  {
    var s' := s.(forward := s.forward[i := Target(s, i)]);
    var t := Target(s, i);
    assert t <= s.forward[i] < i && t !in s.forward;
    assert ForwardOk(s');
    if j in s.forward && j != i {
      CollapsedTarget(s, i, s.forward[j]);
    }
  }

  lemma CollapseKeeps(o: Oracle, own: Own, s: Sets, i: SetId)
    requires Tracking(o, own, s) && i in s.forward
    ensures i < s.count && Tracking(o, own, s.(forward := s.forward[i := Target(s, i)]))
  {
    var s' := s.(forward := s.forward[i := Target(s, i)]);
    forall j: SetId | j < s.count ensures ForwardOk(s') && Target(s', j) == Target(s, j) {
      CollapsedTarget(s, i, j);
    }
    assert ForwardOk(s') by {
      CollapsedTarget(s, i, i);
    }
    SameSets(o, own, s, s');
  }

  /** Nothing changes for sets that stay live with their pointers and records. */
  lemma SameSets(o: Oracle, own: Own, s: Sets, s': Sets)
    requires Tracking(o, own, s) && s'.recs == s.recs && s'.lists == s.lists && s'.may == s.may && s'.count == s.count
    requires ForwardOk(s') && s'.forward.Keys == s.forward.Keys && s'.setOf.Keys == s.setOf.Keys
    requires forall p :: p in s.setOf ==> s'.setOf[p] < s.count && Target(s', s'.setOf[p]) == Target(s, s.setOf[p])
    ensures Tracking(o, own, s')
  {
    assert RecsOk(own, s');
    hide RecsOk, Target, Apart, Together, Faithful;
    SamePlaced(s, s');
    hide Placed;
    SameFaithful(o, own, s, s');
    SameApart(o, own, s, s');
  }

  lemma SameApart(o: Oracle, own: Own, s: Sets, s': Sets)
    requires Apart(o, own, s) && Together(o, own, s)
    requires s'.recs == s.recs && s'.lists == s.lists && s'.count == s.count && s'.forward.Keys == s.forward.Keys
    ensures Apart(o, own, s') && Together(o, own, s')
  {
    assert forall i :: Live(s', i) <==> Live(s, i);
    assert forall i, m :: InSet(s', m, i) <==> InSet(s, m, i);
    hide Touches, Connected, Live, InSet;
    forall i, m | m in own ensures Touches(o, own, s', i, own[m]) <==> Touches(o, own, s, i, own[m]) {
      SameTouches(o, own, s, s', i, own[m]);
    }
  }

  lemma SamePlaced(s: Sets, s': Sets)
    requires Placed(s) && s'.recs == s.recs && s'.lists == s.lists && s'.count == s.count
    requires ForwardOk(s') && s'.forward.Keys == s.forward.Keys && s'.setOf.Keys == s.setOf.Keys
    requires forall p :: p in s.setOf ==> s'.setOf[p] < s.count && Target(s', s'.setOf[p]) == Target(s, s.setOf[p])
    ensures Placed(s')
  {
    hide Target;
    forall p, i | Live(s', i) ensures InSet(s', p, i) <==> p in s'.setOf && Target(s', s'.setOf[p]) == i {
      assert Live(s, i) && (InSet(s, p, i) <==> InSet(s', p, i));
    }
  }

  lemma SameFaithful(o: Oracle, own: Own, s: Sets, s': Sets)
    requires AllFaithful(o, own, s) && s'.recs == s.recs && s'.lists == s.lists && s'.may == s.may && s'.count == s.count
    requires s'.forward.Keys == s.forward.Keys
    ensures AllFaithful(o, own, s')
  {
    hide Touches, StoredTouches, May, Stored;
    SameStored(s, s');
    forall i | Live(s', i) ensures Faithful(o, own, s', i) {
      assert Live(s, i) && Faithful(o, own, s, i);
      forall x ensures (Touches(o, own, s', i, x) <==> Touches(o, own, s, i, x)) && (StoredTouches(o, s', i, x) <==> StoredTouches(o, s, i, x)) {
        SameTouches(o, own, s, s', i, x);
      }
    }
  }

  lemma SameStored(s: Sets, s': Sets)
    requires s'.recs == s.recs
    ensures forall p :: p in s.recs ==> Stored(s', p) == Stored(s, p)
  {
  }

  lemma SameTouches(o: Oracle, own: Own, s: Sets, s': Sets, i: SetId, x: Location)
    requires s'.recs == s.recs && s'.lists == s.lists
    ensures Touches(o, own, s', i, x) <==> Touches(o, own, s, i, x)
    ensures StoredTouches(o, s', i, x) <==> StoredTouches(o, s, i, x)
  {
    assert forall m :: InSet(s', m, i) <==> InSet(s, m, i);
    hide InSet;
    SameStored(s, s');
  }

  // ---------------------------------------------------------------- all that one pointer changes

  ghost predicate Touched(o: Oracle, own: Own, s: Sets, j: SetId, l: Location) {
    Live(s, j) && Touches(o, own, s, j, l)
  }

  /** Another of the first `n` sets than `f` may alias `l`. */
  ghost predicate AlsoTouched(o: Oracle, own: Own, s: Sets, f: SetId, l: Location, n: nat) {
    exists j: SetId :: j < n && j != f && Touched(o, own, s, j, l)
  }

  ghost predicate FirstTouched(o: Oracle, own: Own, s: Sets, f: SetId, l: Location) {
    Touched(o, own, s, f, l) && forall j: SetId :: j < f ==> !Touched(o, own, s, j, l)
  }

  /** The pointers of those of the first `n` sets that may alias `l`, in order. */
  ghost function TouchedLists(o: Oracle, own: Own, s: Sets, l: Location, n: nat): seq<Pointer> {
    if n == 0 then []
    else TouchedLists(o, own, s, l, n - 1) + if n - 1 in s.lists && Touched(o, own, s, n - 1, l) then s.lists[n - 1] else []
  }

  /** Set `f` has the pointers of all of the first `n` sets that may alias `l`, and the pointers `last`. */
  ghost predicate ListsUpTo(o: Oracle, own: Own, s0: Sets, s: Sets, l: Location, f: SetId, n: nat, last: seq<Pointer>) {
    && s.lists.Keys == s0.lists.Keys
    && (f in s.lists ==> s.lists[f] == TouchedLists(o, own, s0, l, n) + last)
    && (forall j: SetId :: j in s.lists && j != f ==> s.lists[j] == if j < n && Touched(o, own, s0, j, l) then [] else s0.lists[j])
  }

  /** Those sets forward to `f`. */
  ghost predicate ForwardUpTo(o: Oracle, own: Own, s0: Sets, s: Sets, l: Location, f: SetId, n: nat) {
    && (forall j: SetId :: j in s.forward <==> j in s0.forward || (j < n && j != f && Touched(o, own, s0, j, l)))
    && (forall j: SetId :: j in s.forward ==> s.forward[j] == if j in s0.forward then s0.forward[j] else f)
  }

  /** Set `f` is a may-alias set now if it was one or had to be merged with another, or for a reason of its own. */
  ghost predicate MayUpTo(o: Oracle, own: Own, s0: Sets, s: Sets, l: Location, f: SetId, n: nat, more: bool) {
    && s.may.Keys == s0.may.Keys && f in s.may
    && (forall j: SetId :: j in s.may && j != f ==> s.may[j] == s0.may[j])
    && (s.may[f] <==> s0.may[f] || AlsoTouched(o, own, s0, f, l, n) || more)
  }

  /** Of the first `n` sets of `s0` those that may alias `l` have become one, the first of them, `f`. */
  ghost predicate UnifiedUpTo(o: Oracle, own: Own, s0: Sets, s: Sets, l: Location, f: SetId, n: nat) {
    && f < n && FirstTouched(o, own, s0, f, l)
    && s.recs == s0.recs && s.setOf == s0.setOf && s.count == s0.count
    && ListsUpTo(o, own, s0, s, l, f, n, []) && ForwardUpTo(o, own, s0, s, l, f, n) && MayUpTo(o, own, s0, s, l, f, n, false)
  }

  lemma {:induction false} NoneTouched(o: Oracle, own: Own, s: Sets, l: Location, n: nat)
    requires forall j: SetId :: j < n ==> !Touched(o, own, s, j, l)
    ensures TouchedLists(o, own, s, l, n) == []
  {
    if n > 0 {
      NoneTouched(o, own, s, l, n - 1);
    }
  }

  lemma UnifiedFirst(o: Oracle, own: Own, s0: Sets, l: Location, f: SetId)
    requires ForwardOk(s0) && Live(s0, f) && FirstTouched(o, own, s0, f, l)
    ensures UnifiedUpTo(o, own, s0, s0, l, f, f + 1)
  {
    hide Touched;
    NoneTouched(o, own, s0, l, f);
    assert ListsUpTo(o, own, s0, s0, l, f, f + 1, []) by {
      assert [] + s0.lists[f] + [] == s0.lists[f];
    }
    assert ForwardUpTo(o, own, s0, s0, l, f, f + 1);
    assert MayUpTo(o, own, s0, s0, l, f, f + 1, false);
  }

  lemma AlsoTouchedNext(o: Oracle, own: Own, s: Sets, f: SetId, l: Location, n: SetId)
    ensures AlsoTouched(o, own, s, f, l, n + 1) <==> AlsoTouched(o, own, s, f, l, n) || (n != f && Touched(o, own, s, n, l))
  {
    hide Touched;
  }

  lemma UnifiedNext(o: Oracle, own: Own, s0: Sets, s: Sets, l: Location, f: SetId, n: SetId)
    requires UnifiedUpTo(o, own, s0, s, l, f, n) && !Touched(o, own, s0, n, l)
    ensures UnifiedUpTo(o, own, s0, s, l, f, n + 1)
  {
    hide Touched, FirstTouched;
    AlsoTouchedNext(o, own, s0, f, l, n);
    hide AlsoTouched;
    assert TouchedLists(o, own, s0, l, n + 1) == TouchedLists(o, own, s0, l, n);
    assert ListsUpTo(o, own, s0, s, l, f, n + 1, []);
  }

  lemma ListsMore(o: Oracle, own: Own, s0: Sets, s: Sets, l: Location, f: SetId, n: SetId)
    requires n in s0.lists && f in s.lists && n in s.lists && f < n && ListsUpTo(o, own, s0, s, l, f, n, []) && Touched(o, own, s0, n, l)
    ensures ListsUpTo(o, own, s0, Merged(s, f, n), l, f, n + 1, [])
  {
    hide Touched;
    assert TouchedLists(o, own, s0, l, n + 1) == TouchedLists(o, own, s0, l, n) + s0.lists[n];
  }

  lemma ForwardMore(o: Oracle, own: Own, s0: Sets, s: Sets, l: Location, f: SetId, n: SetId)
    requires n !in s0.forward && f in s.lists && n in s.lists && f < n
    requires ForwardUpTo(o, own, s0, s, l, f, n) && Touched(o, own, s0, n, l)
    ensures ForwardUpTo(o, own, s0, Merged(s, f, n), l, f, n + 1)
  {
    hide Touched;
  }

  lemma MayMore(o: Oracle, own: Own, s0: Sets, s: Sets, l: Location, f: SetId, n: SetId)
    requires f in s.lists && n in s.lists && f < n
    requires MayUpTo(o, own, s0, s, l, f, n, false) && Touched(o, own, s0, n, l)
    ensures MayUpTo(o, own, s0, Merged(s, f, n), l, f, n + 1, false)
  {
    hide Touched;
    AlsoTouchedNext(o, own, s0, f, l, n);
    hide AlsoTouched;
  }

  lemma UnifiedMore(o: Oracle, own: Own, s0: Sets, s: Sets, l: Location, f: SetId, n: SetId)
    requires ForwardOk(s0) && n < s0.count && UnifiedUpTo(o, own, s0, s, l, f, n) && Touched(o, own, s0, n, l)
    ensures f in s.lists && n in s.lists && UnifiedUpTo(o, own, s0, Merged(s, f, n), l, f, n + 1)
  {
    UnifiedKnown(o, own, s0, s, l, f, n);
    hide ListsUpTo, ForwardUpTo, MayUpTo, FirstTouched, Touched, ForwardOk;
    ListsMore(o, own, s0, s, l, f, n);
    ForwardMore(o, own, s0, s, l, f, n);
    MayMore(o, own, s0, s, l, f, n);
  }

  lemma UnifiedKnown(o: Oracle, own: Own, s0: Sets, s: Sets, l: Location, f: SetId, n: SetId)
    requires ForwardOk(s0) && n < s0.count && UnifiedUpTo(o, own, s0, s, l, f, n) && Touched(o, own, s0, n, l)
    ensures f in s.lists && n in s.lists && n in s0.lists && n !in s0.forward
  {
    hide Touches;
  }

  /** Where the search for the sets that may alias `l` is, with the first `i` sets looked at. */
  ghost predicate Searched(o: Oracle, own: Own, s0: Sets, s: Sets, l: Location, found: Option<SetId>, i: nat) {
    if found.None? then s == s0 && forall j: SetId :: j < i ==> !Touched(o, own, s0, j, l)
    else UnifiedUpTo(o, own, s0, s, l, found.value, i)
  }

  /** The sets looked at so far do not alias `l` any more, except the one found. */
  ghost predicate Searching(o: Oracle, own: Own, s0: Sets, s: Sets, l: Location, found: Option<SetId>, i: nat) {
    && Searched(o, own, s0, s, l, found, i) && ForwardOk(s0) && ForwardOk(s)
    && (found.Some? ==> found.value < i && Live(s, found.value) && Touches(o, own, s, found.value, l))
    && (forall j: SetId :: j < i && Live(s, j) && found != Some(j) ==> !Touches(o, own, s, j, l))
  }

  lemma SearchStarts(o: Oracle, own: Own, own1: Own, s0: Sets, l: Location)
    requires TrackingFor(o, own, own1, s0)
    ensures Searching(o, own, s0, s0, l, None, 0)
  {
  }

  lemma SearchedNext(o: Oracle, own: Own, s0: Sets, s: Sets, l: Location, found: Option<SetId>, i: SetId)
    requires ForwardOk(s0) && i < s0.count && Searched(o, own, s0, s, l, found, i)
    ensures s.count == s0.count
    ensures i in s.forward || !Touches(o, own, s, i, l) ==> Searched(o, own, s0, s, l, found, i + 1)
    ensures i !in s.forward && Touches(o, own, s, i, l) && found.None? ==> Searched(o, own, s0, s, l, Some(i), i + 1)
    ensures i !in s.forward && Touches(o, own, s, i, l) && found.Some? ==>
      found.value in s.lists && i in s.lists && Searched(o, own, s0, Merged(s, found.value, i), l, found, i + 1)
  {
    if found.Some? {
      assert s.count == s0.count;
      hide Touches, Merged;
      UnifiedTouches(o, own, s0, s, l, found.value, i);
      if Touched(o, own, s0, i, l) {
        UnifiedMore(o, own, s0, s, l, found.value, i);
      } else {
        UnifiedNext(o, own, s0, s, l, found.value, i);
      }
      hide UnifiedUpTo, Touched;
    } else if Touched(o, own, s0, i, l) {
      hide Touches;
      UnifiedFirst(o, own, s0, l, i);
      hide UnifiedUpTo;
    }
  }

  lemma SearchNext(o: Oracle, own: Own, s0: Sets, s: Sets, l: Location, found: Option<SetId>, i: SetId)
    requires i < s0.count && Searching(o, own, s0, s, l, found, i)
    ensures s.count == s0.count && (found.Some? ==> found.value < i && Live(s, found.value) && Touches(o, own, s, found.value, l))
    ensures i in s.forward || !Touches(o, own, s, i, l) ==> Searching(o, own, s0, s, l, found, i + 1)
    ensures i !in s.forward && Touches(o, own, s, i, l) && found.None? ==> Searching(o, own, s0, s, l, Some(i), i + 1)
    ensures i !in s.forward && Touches(o, own, s, i, l) && found.Some? ==>
      found.value in s.lists && i in s.lists && Searching(o, own, s0, Merged(s, found.value, i), l, found, i + 1)
  {
    SearchedNext(o, own, s0, s, l, found, i);
    hide Touches, Searched;
    if i !in s.forward && Touches(o, own, s, i, l) && found.Some? {
      MergedForward(s, found.value, i);
      MergedTouchesAll(o, own, s, found.value, i, l);
      hide Merged, ForwardOk;
    }
  }

  lemma SearchEnds(o: Oracle, own: Own, s0: Sets, s: Sets, l: Location, found: Option<SetId>)
    requires s.count == s0.count && Searching(o, own, s0, s, l, found, s0.count)
    ensures found.None? ==> s == s0 && !SomeTouches(o, own, s0, l)
    ensures found.Some? ==> UnifiedUpTo(o, own, s0, s, l, found.value, s0.count) && SomeTouches(o, own, s0, l)
    ensures found.Some? ==> Live(s, found.value) && Touches(o, own, s, found.value, l)
    ensures found.Some? ==> forall j :: Live(s, j) && j != found.value ==> !Touches(o, own, s, j, l)
  {
    hide Touches;
    if found.Some? {
      assert Touched(o, own, s0, found.value, l);
    } else {
      forall j: SetId | Live(s0, j) ensures !Touches(o, own, s0, j, l) {
        assert !Touched(o, own, s0, j, l);
      }
    }
  }

  /** A set that has not been looked at is touched as before. */
  lemma UnifiedTouches(o: Oracle, own: Own, s0: Sets, s: Sets, l: Location, f: SetId, n: SetId)
    requires ForwardOk(s0) && n < s0.count && UnifiedUpTo(o, own, s0, s, l, f, n)
    ensures Touched(o, own, s0, n, l) <==> n !in s.forward && Touches(o, own, s, n, l)
  {
    assert n in s.lists && s.lists[n] == s0.lists[n];
    assert n in s.forward <==> n in s0.forward;
    hide ListsUpTo, ForwardUpTo, MayUpTo;
    SameTouched(o, own, s0, s, n, l);
  }

  lemma SameTouched(o: Oracle, own: Own, s0: Sets, s: Sets, n: SetId, l: Location)
    requires n in s0.lists && n in s.lists && s.lists[n] == s0.lists[n]
    ensures Touches(o, own, s0, n, l) <==> Touches(o, own, s, n, l)
  {
    assert forall m :: InSet(s, m, n) <==> InSet(s0, m, n);
    hide InSet;
  }

  /**
   Pointer `l.ptr` has joined set `f`, the first of the sets that may alias `l`, and the others have been merged
   into it.  It is a must-alias set exactly if it was one, no other was touched, and its first pointer must alias `l`.
   */
  ghost predicate JoinedInto(o: Oracle, own: Own, s0: Sets, s: Sets, l: Location, f: SetId) {
    var p := l.ptr;
    && FirstTouched(o, own, s0, f, l) && s.count == s0.count && s.setOf == s0.setOf[p := f]
    && ListsUpTo(o, own, s0, s, l, f, s0.count, [p]) && ForwardUpTo(o, own, s0, s, l, f, s0.count)
    && f in s0.lists && s0.lists[f] != [] && s0.lists[f][0] in s0.recs
    && var head := s0.lists[f][0];
    && MayUpTo(o, own, s0, s, l, f, s0.count, o(Stored(s0, head), l) != MustAlias)
    && s.recs == (if s.may[f] then s0.recs else s0.recs[head := Update(s0.recs[head], l.size, l.tag)])[p := Rec(l.size, Known(l.tag))]
  }

  lemma {:induction false} OneTouched(o: Oracle, own: Own, s: Sets, l: Location, f: SetId, n: nat)
    requires f < n && FirstTouched(o, own, s, f, l) && f in s.lists && s.lists[f] != []
    ensures TouchedLists(o, own, s, l, n) != [] && TouchedLists(o, own, s, l, n)[0] == s.lists[f][0]
  {
    if n == f + 1 {
      NoneTouched(o, own, s, l, f);
    } else {
      OneTouched(o, own, s, l, f, n - 1);
    }
  }

  lemma ListsJoined(o: Oracle, own: Own, s0: Sets, s1: Sets, s: Sets, l: Location, f: SetId, n: nat)
    requires f in s1.lists && ListsUpTo(o, own, s0, s1, l, f, n, []) && s.lists == s1.lists[f := s1.lists[f] + [l.ptr]]
    ensures ListsUpTo(o, own, s0, s, l, f, n, [l.ptr])
  {
    hide Touched, TouchedLists;
    var xs := TouchedLists(o, own, s0, l, n);
    assert xs + [] + [l.ptr] == xs + [l.ptr];
  }

  lemma MayJoined(o: Oracle, own: Own, s0: Sets, s1: Sets, s: Sets, l: Location, f: SetId, n: nat, more: bool)
    requires MayUpTo(o, own, s0, s1, l, f, n, false) && f in s1.may && s.may == s1.may[f := s1.may[f] || more]
    ensures MayUpTo(o, own, s0, s, l, f, n, more)
  {
    hide AlsoTouched;
  }

  /** The first pointer of the sets that are merged is that of the first set. */
  lemma UnifiedHead(o: Oracle, own: Own, s0: Sets, s1: Sets, l: Location, f: SetId)
    requires Placed(s0) && UnifiedUpTo(o, own, s0, s1, l, f, s0.count)
    ensures f in s0.lists && s0.lists[f] != [] && s0.lists[f][0] in s0.recs
    ensures f in s1.lists && f in s1.may && s1.lists[f] != [] && s1.lists[f][0] == s0.lists[f][0]
  {
    assert Live(s0, f);
    assert s0.lists[f] != [] && InSet(s0, s0.lists[f][0], f);
    OneTouched(o, own, s0, l, f, s0.count);
  }

  /** What merging and adding do together. */
  lemma UnifiedJoined(o: Oracle, own: Own, s0: Sets, s1: Sets, s: Sets, l: Location, f: SetId)
    requires Placed(s0) && UnifiedUpTo(o, own, s0, s1, l, f, s0.count)
    requires f in s1.lists && f in s1.may && s1.lists[f] != [] && s1.lists[f][0] in s1.recs && f in s.may
    requires var head := s1.lists[f][0];
      && s.may == s1.may[f := s1.may[f] || o(Stored(s1, head), l) != MustAlias]
      && s.recs == (if s.may[f] then s1.recs else s1.recs[head := Update(s1.recs[head], l.size, l.tag)])[l.ptr := Rec(l.size, Known(l.tag))]
    requires s.count == s1.count && s.forward == s1.forward && s.lists == s1.lists[f := s1.lists[f] + [l.ptr]]
    requires s.setOf == s1.setOf[l.ptr := f]
    ensures JoinedInto(o, own, s0, s, l, f)
  {
    UnifiedHead(o, own, s0, s1, l, f);
    hide FirstTouched, Placed, MayUpTo, ListsUpTo, Update;
    assert ForwardUpTo(o, own, s0, s, l, f, s0.count);
    hide ForwardUpTo;
    ListsJoined(o, own, s0, s1, s, l, f, s0.count);
    var head := s0.lists[f][0];
    assert Stored(s1, head) == Stored(s0, head);
    MayJoined(o, own, s0, s1, s, l, f, s0.count, o(Stored(s0, head), l) != MustAlias);
  }

  // ---------------------------------------------------------------- the class

  class AliasSetTracker {
    const alias: Oracle
    var recs: map<Pointer, Rec>           // the PointerRec of every pointer
    var setOf: map<Pointer, SetId>        // the AS of every PointerRec
    var lists: map<SetId, seq<Pointer>>   // the PtrList of every AliasSet
    var forward: map<SetId, SetId>        // the Forward of every forwarding AliasSet
    var may: map<SetId, bool>             // whether the AliasTy of an AliasSet is MayAlias
    var count: nat                        // the number of AliasSets, in the order of the list
    ghost var own: Own

    constructor (o: Oracle)
      requires Interchangeable(o)
      ensures Valid() && own == map[] && alias == o
    {
      alias := o;
      recs, setOf, lists, forward, may, count, own := map[], map[], map[], map[], map[], 0, map[];
    }

    ghost function Now(): Sets
      reads this
    {
      Sets(recs, setOf, lists, forward, may, count)
    }

    ghost predicate Valid()
      reads this
    {
      Interchangeable(alias) && Tracking(alias, own, Now())
    }

    /** The set `i` represents, collapsing chains on the way (AliasSetTracker.h:235-248). */
    method GetForwardedTarget(i: SetId) returns (dest: SetId)
      requires Valid() && i < count
      modifies this`forward
      ensures Valid() && dest == old(Target(Now(), i)) && Live(Now(), dest)
      ensures forall j: SetId :: j < count ==> Target(Now(), j) == old(Target(Now(), j))
      ensures forward.Keys == old(forward).Keys
      decreases i
    {
      hide Tracking, Interchangeable;
      TrackedForward(alias, own, Now());
      if i !in forward {
        return i;
      }
      dest := GetForwardedTarget(forward[i]);
      TrackedForward(alias, own, Now());
      if dest != forward[i] {
        CollapseKeeps(alias, own, Now(), i);
        CollapsedTargets(Now(), i);
        forward := forward[i := dest];
      }
    }

    /** Whether location `l` may alias a pointer of set `i` (AliasSetTracker.cpp:142-168). */
    method AliasesPointer(i: SetId, l: Location) returns (r: bool)
      requires Interchangeable(alias) && Placed(Now()) && AllFaithful(alias, own, Now()) && own.Keys == recs.Keys && Live(Now(), i)
      ensures r <==> Touches(alias, own, Now(), i, l)
    {
      hide Interchangeable;
      assert Faithful(alias, own, Now(), i);
      SetRecords(Now(), i);
      if !may[i] {
        var somePtr := lists[i][0];
        return alias(LocationOf(somePtr, recs[somePtr]), l) != NoAlias;
      }
      var k := 0;
      while k < |lists[i]|
        invariant 0 <= k <= |lists[i]|
        invariant forall q :: 0 <= q < k ==> !May(alias, LocationOf(lists[i][q], recs[lists[i][q]]), l)
      {
        var p := lists[i][k];
        SwapMay(alias, l, LocationOf(p, recs[p]));
        if alias(l, LocationOf(p, recs[p])) != NoAlias {
          assert InSet(Now(), p, i) && May(alias, Stored(Now(), p), l);
          return true;
        }
        k := k + 1;
      }
      r := false;
    }

    /** Merges set `i` into set `f`, both of which may alias the new pointer `p` (AliasSetTracker.cpp:30-79). */
    method MergeSetIn(f: SetId, i: SetId, ghost p: Pointer, ghost l: Location)
      requires Interchangeable(alias) && TrackingFor(alias, own, own[p := l], Now()) && p !in own && f < i
      requires Live(Now(), f) && Live(Now(), i) && Touches(alias, own, Now(), f, l) && Touches(alias, own, Now(), i, l)
      modifies this`lists, this`forward, this`may
      ensures Now() == Merged(old(Now()), f, i)
    {
      hide Interchangeable, Placed, AllFaithful, Apart, Together, Touches, RecsOk;
      SetKnown(Now(), f);
      SetKnown(Now(), i);
      may := may[f := may[f] || may[i]];
      if !may[f] {
        RecsKeys(own, old(Now()));
        SetRecords(old(Now()), f);
        SetRecords(old(Now()), i);
        HeadsApart(alias, own, old(Now()), f, i);
        var left, right := lists[f][0], lists[i][0];
        if alias(LocationOf(left, recs[left]), LocationOf(right, recs[right])) != MustAlias {
          may := may[f := true];
        }
      }
      assert may == old(may)[f := true];
      forward := forward[i := f];
      lists := lists[f := lists[f] + lists[i]];
      lists := lists[i := []];
    }

    /** The one set the new pointer `p` goes into, if any: all sets it may alias, merged (AliasSetTracker.cpp:217-232). */
    method FindAliasSetForPointer(l: Location, ghost p: Pointer) returns (found: Option<SetId>)
      requires Interchangeable(alias) && TrackingFor(alias, own, own[p := l], Now()) && p !in own
      modifies this`lists, this`forward, this`may
      ensures TrackingFor(alias, own, own[p := l], Now())
      ensures found.Some? ==> UnifiedUpTo(alias, own, old(Now()), Now(), l, found.value, count)
      ensures found.None? ==> Now() == old(Now()) && !SomeTouches(alias, own, Now(), l)
      ensures found.Some? ==> SomeTouches(alias, own, old(Now()), l)
      ensures found.Some? ==> Live(Now(), found.value) && Touches(alias, own, Now(), found.value, l)
      ensures found.Some? ==> forall j :: Live(Now(), j) && j != found.value ==> !Touches(alias, own, Now(), j, l)
    {
      hide Interchangeable, Placed, AllFaithful, Apart, Together, Touches, UnifiedUpTo, RecsOk, Searched, Searching;
      found := None;
      var i := 0;
      ghost var s0 := Now();
      SearchStarts(alias, own, own[p := l], s0, l);
      while i < count
        invariant 0 <= i <= count == s0.count && TrackingFor(alias, own, own[p := l], Now())
        invariant Searching(alias, own, s0, Now(), l, found, i)
      {
        SearchNext(alias, own, s0, Now(), l, found, i);
        if i !in forward {
          RecsKeys(own, Now());
          var hit := AliasesPointer(i, l);
          if hit {
            if found.None? {
              found := Some(i);
            } else {
              MergeKeeps(alias, own, own[p := l], Now(), found.value, i, p);
              MergeSetIn(found.value, i, p, l);
            }
          }
        }
        i := i + 1;
      }
      SearchEnds(alias, own, s0, Now(), l, found);
    }

    /** Puts a new pointer into the one set it may alias (AliasSetTracker.cpp:94-123). */
    method AddPointer(f: SetId, p: Pointer, size: nat, tag: Option<Metadata>)
      requires var l := Location(p, size, tag);
        && Interchangeable(alias) && TrackingFor(alias, own, own[p := l], Now()) && p !in own && Live(Now(), f)
        && Touches(alias, own, Now(), f, l) && forall j :: Live(Now(), j) && j != f ==> !Touches(alias, own, Now(), j, l)
      modifies this`recs, this`setOf, this`lists, this`may, this`own
      ensures Valid() && own == old(own)[p := Location(p, size, tag)] && Live(Now(), f) && InSet(Now(), p, f) && count == old(count)
      ensures old(f in lists && f in may && lists[f] != [] && lists[f][0] in recs)
      ensures f in may && lists == old(lists)[f := old(lists)[f] + [p]] && setOf == old(setOf)[p := f]
      ensures var head := old(lists[f][0]);
        && may == old(may)[f := old(may[f] || alias(Stored(Now(), lists[f][0]), Location(p, size, tag)) != MustAlias)]
        && recs == (if may[f] then old(recs) else old(recs)[head := Update(old(recs)[head], size, tag)])[p := Rec(size, Known(tag))]
    {
      hide Interchangeable, Placed, AllFaithful, Apart, Together, Touches, Tracking;
      ghost var s, l := Now(), Location(p, size, tag);
      RecsKeys(own, s);
      SetRecords(s, f);
      NewInSets(s, p, f);
      var head := lists[f][0];
      var must := false;
      if !may[f] {
        HeadTouched(alias, own, s, f, l);
        var result := alias(LocationOf(head, recs[head]), Location(p, size, tag));
        assert result != NoAlias;
        if result != MustAlias {
          may := may[f := true];
        } else {
          must := true;
          recs := recs[head := Update(recs[head], size, tag)];
        }
      } else {
        assert may[f := true] == may;
      }
      JoinKeeps(alias, own, s, f, p, l, must);
      setOf := setOf[p := f];
      recs := recs[p := Update(Rec(0, Unset), size, tag)];
      lists := lists[f := lists[f] + [p]];
      own := own[p := l];
      assert Now() == Joined(s, f, p, l, must);
    }

    /** Puts a new pointer that no set may alias into a set of its own (AliasSetTracker.cpp:285-288). */
    method NewAliasSet(p: Pointer, size: nat, tag: Option<Metadata>) returns (s: SetId)
      requires var l := Location(p, size, tag);
        && Interchangeable(alias) && TrackingFor(alias, own, own[p := l], Now()) && p !in own && !SomeTouches(alias, own, Now(), l)
      modifies this`recs, this`setOf, this`lists, this`may, this`count, this`own
      ensures Valid() && own == old(own)[p := Location(p, size, tag)]
      ensures s == old(count) && count == s + 1 && Live(Now(), s) && InSet(Now(), p, s)
      ensures may == old(may)[s := false] && lists == old(lists)[s := [p]]
      ensures recs == old(recs)[p := Rec(size, Known(tag))] && setOf == old(setOf)[p := s]
    {
      hide Interchangeable, Placed, AllFaithful, Apart, Together, Touches, Tracking;
      ghost var before, l := Now(), Location(p, size, tag);
      RecsKeys(own, Now());
      AloneKeeps(alias, own, Now(), p, l);
      AloneIn(Now(), p, l);
      s := count;
      count := count + 1;
      may := may[s := false];
      setOf := setOf[p := s];
      recs := recs[p := Update(Rec(0, Unset), size, tag)];
      lists := lists[s := [p]];
      own := own[p := l];
      assert Now() == Alone(before, p, l);
    }

    /**
     The set that pointer `p` lives in, after it has been added if it is new (AliasSetTracker.cpp:266-289).  A
     pointer is always added with the same size and tag.
     */
    method GetAliasSetForPointer(p: Pointer, size: nat, tag: Option<Metadata>) returns (s: SetId, isNew: bool)
      requires Valid() && (p in own ==> own[p] == Location(p, size, tag))
      modifies this
      ensures Valid() && own == old(own)[p := Location(p, size, tag)]
      ensures Live(Now(), s) && InSet(Now(), p, s)
      ensures isNew <==> p !in old(own) && !SomeTouches(alias, old(own), old(Now()), Location(p, size, tag))
      ensures if isNew then s == old(count) && count == s + 1 else count == old(count)
      ensures p in old(own) ==> recs == old(recs) && setOf == old(setOf) && lists == old(lists) && may == old(may)
      ensures isNew ==> may == old(may)[s := false] && lists == old(lists)[s := [p]] && forward == old(forward)
      ensures isNew ==> recs == old(recs)[p := Rec(size, Known(tag))] && setOf == old(setOf)[p := s]
      ensures p !in old(own) && !isNew ==> JoinedInto(alias, old(own), old(Now()), Now(), Location(p, size, tag), s)
    {
      hide Interchangeable, Placed, AllFaithful, Apart, Together, Touches, Tracking;
      hide UnifiedUpTo, JoinedInto, ForwardOk, InSet, RecsOk, SomeTouches;
      isNew := false;
      TrackedKeys(alias, own, Now());
      TrackedForward(alias, own, Now());
      ghost var s0 := Now();
      if p in setOf {
        SameUpdate(alias, own, Now(), p, size, tag);
        assert own[p := Location(p, size, tag)] == own;
        recs := recs[p := Update(recs[p], size, tag)];
        assert Now() == old(Now());
        s := GetForwardedTarget(setOf[p]);
        PointerInTarget(alias, own, Now(), p);
        return;
      }
      ghost var l := Location(p, size, tag);
      OneMorePointer(alias, own, Now(), p, l);
      var found := FindAliasSetForPointer(Location(p, size, tag), p);
      if found.Some? {
        ghost var s1 := Now();
        AddPointer(found.value, p, size, tag);
        s := found.value;
        UnifiedJoined(alias, old(own), s0, s1, Now(), l, s);
        return;
      }
      isNew := true;
      s := NewAliasSet(p, size, tag);
    }
  }

  lemma PlacedForward(s: Sets)
    requires Placed(s)
    ensures ForwardOk(s)
  {
  }

  lemma SetKnown(s: Sets, i: SetId)
    requires Placed(s) && Live(s, i)
    ensures i in s.lists && i in s.may
  {
  }

  lemma RecsKeys(own: Own, s: Sets)
    requires RecsOk(own, s) && Placed(s)
    ensures own.Keys == s.recs.Keys && s.setOf.Keys == s.recs.Keys
  {
  }

  lemma TrackedKeys(o: Oracle, own: Own, s: Sets)
    requires Tracking(o, own, s)
    ensures own.Keys == s.recs.Keys && s.setOf.Keys == s.recs.Keys && forall p :: p in s.setOf ==> s.setOf[p] < s.count
  {
  }

  lemma NewInSets(s: Sets, p: Pointer, f: SetId)
    requires Placed(s) && Live(s, f) && p !in s.setOf && f in s.lists && s.lists[f] != []
    ensures s.lists[f][0] != p
  {
    assert InSet(s, s.lists[f][0], f);
  }

  lemma HeadTouched(o: Oracle, own: Own, s: Sets, f: SetId, l: Location)
    requires Placed(s) && AllFaithful(o, own, s) && Live(s, f) && f in s.may && !s.may[f] && Touches(o, own, s, f, l)
    requires f in s.lists && s.lists[f] != [] && s.lists[f][0] in s.recs
    ensures o(LocationOf(s.lists[f][0], s.recs[s.lists[f][0]]), l) != NoAlias
  {
    hide Touches;
    assert Faithful(o, own, s, f);
    assert May(o, Stored(s, s.lists[f][0]), l);
  }

  lemma MergedTouchesAll(o: Oracle, own: Own, s: Sets, f: SetId, i: SetId, l: Location)
    requires ForwardOk(s) && Live(s, f) && Live(s, i) && f < i && Touches(o, own, s, f, l)
    ensures forall j :: j != i ==> (Touches(o, own, Merged(s, f, i), j, l) <==> Touches(o, own, s, j, l))
    ensures forall j :: Live(Merged(s, f, i), j) <==> Live(s, j) && j != i
  {
    hide Touches;
    MergedForward(s, f, i);
    forall j | j != i ensures Touches(o, own, Merged(s, f, i), j, l) <==> Touches(o, own, s, j, l) {
      MergedTouches(o, own, s, f, i, j, l);
    }
  }

  lemma SameUpdate(o: Oracle, own: Own, s: Sets, p: Pointer, size: nat, tag: Option<Metadata>)
    requires Tracking(o, own, s) && p in own && own[p] == Location(p, size, tag)
    ensures p in s.recs && Update(s.recs[p], size, tag) == s.recs[p]
  {
  }

  lemma PointerInTarget(o: Oracle, own: Own, s: Sets, p: Pointer)
    requires Tracking(o, own, s) && p in s.setOf
    ensures s.setOf[p] < s.count && ForwardOk(s) && InSet(s, p, Target(s, s.setOf[p]))
  {
    SomeSet(s, p);
  }

  lemma AloneIn(s: Sets, p: Pointer, l: Location)
    requires Placed(s)
    ensures Live(Alone(s, p, l), s.count) && InSet(Alone(s, p, l), p, s.count)
  {
  }

  lemma TrackedForward(o: Oracle, own: Own, s: Sets)
    requires Tracking(o, own, s)
    ensures ForwardOk(s)
  {
  }

  lemma CollapsedTargets(s: Sets, i: SetId)
    requires ForwardOk(s) && i in s.forward
    ensures ForwardOk(s.(forward := s.forward[i := Target(s, i)]))
    ensures forall j: SetId :: j < s.count ==> Target(s.(forward := s.forward[i := Target(s, i)]), j) == Target(s, j)
  {
    CollapsedTarget(s, i, i);
    forall j: SetId | j < s.count ensures Target(s.(forward := s.forward[i := Target(s, i)]), j) == Target(s, j) {
      CollapsedTarget(s, i, j);
    }
  }

  lemma SetRecords(s: Sets, i: SetId)
    requires Placed(s) && Live(s, i)
    ensures i in s.lists && i in s.may && s.lists[i] != [] && forall k :: 0 <= k < |s.lists[i]| ==> s.lists[i][k] in s.recs
  {
    forall k | 0 <= k < |s.lists[i]| ensures s.lists[i][k] in s.recs {
      assert InSet(s, s.lists[i][k], i);
    }
  }

  lemma SwapMay(o: Oracle, a: Location, b: Location)
    requires Interchangeable(o)
    ensures May(o, a, b) <==> May(o, b, a)
  {
  }
}
