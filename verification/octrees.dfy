/** The octree of bodies (src/Octree.java).
    A node owns an octant, a fixed-capacity array of body slots and an array of
    eight child slots. `add` stores a body in a free slot, or divides the node,
    pushes its residents down and offers the body to the children. */
module Octrees {
  import opened Vectors
  import opened Octants
  import opened Bodies

  // ---------------------------------------------------------------------------
  // The body slots of a node, as a sequence.

  /** bodyCount, as a value: the number of occupied slots. */
  function CountNonNull(s: seq<Body?>): (n: nat)
    ensures n <= |s|
  {
    if s == [] then 0
    else CountNonNull(s[..|s| - 1]) + (if s[|s| - 1] != null then 1 else 0)
  }

  /** Every slot is occupied exactly when the count reaches the number of slots. */
  lemma {:induction false} CountFullIffNoEmptySlot(s: seq<Body?>)
    ensures CountNonNull(s) == |s| <==> null !in s
  {
    if s != [] {
      var init := s[..|s| - 1];
      CountFullIffNoEmptySlot(init);
      assert s == init + [s[|s| - 1]];
    }
  }

  /** The bodies held in the slots. */
  ghost function Held(s: seq<Body?>): set<Body>
  {
    set x: Body | x in s
  }

  /** Slots that hold no body count zero. */
  lemma {:induction false} NoneHeldCountsZero(s: seq<Body?>)
    requires Held(s) == {}
    ensures CountNonNull(s) == 0
  {
    if s != [] {
      var init := s[..|s| - 1];
      assert s[|s| - 1] !in Held(s);
      forall x: Body | x in init
        ensures x in s
      {
        var i :| 0 <= i < |init| && init[i] == x;
        assert s[i] == x;
      }
      NoneHeldCountsZero(init);
    }
  }

  /** The fill loop of add, as a value: every empty slot receives b, occupied
      slots keep their body. */
  function FillEmpty(s: seq<Body?>, b: Body): (r: seq<Body?>)
    ensures |r| == |s| && null !in r
    ensures forall i | 0 <= i < |s| && s[i] != null :: r[i] == s[i]
  {
    seq(|s|, i requires 0 <= i < |s| => if s[i] == null then b else s[i])
  }

  /** When some slot was empty, filling adds b and nothing else to the held bodies. */
  lemma {:induction false} FillEmptyHolds(s: seq<Body?>, b: Body)
    requires null in s
    ensures Held(FillEmpty(s, b)) == Held(s) + {b}
  {
    var r := FillEmpty(s, b);
    var k :| 0 <= k < |s| && s[k] == null;
    assert r[k] == b;
    forall x: Body | x in r
      ensures x in s || x == b
    {
      var i :| 0 <= i < |r| && r[i] == x;
      assert s[i] == null || s[i] == x;
    }
  }

  /** One add fills every slot: after the fill loop the node counts as full, so
      the next add already overflows. */
  lemma {:induction false} FillEmptyFillsEverySlot(s: seq<Body?>, b: Body)
    ensures CountNonNull(FillEmpty(s, b)) == |s|
  {
    CountFullIffNoEmptySlot(FillEmpty(s, b));
  }

  /** A node with two empty slots: a single add stores b in both of them. */
  lemma OneBodyTakesTwoSlots(b: Body)
    ensures FillEmpty([null, null], b) == [b, b]
    ensures CountNonNull(FillEmpty([null, null], b)) == 2
  {
    FillEmptyFillsEverySlot([null, null], b);
  }

  /** The index of the first empty slot. */
  function FirstEmpty(s: seq<Body?>): (k: nat)
    requires null in s
    ensures k < |s| && s[k] == null
    ensures forall i | 0 <= i < k :: s[i] != null
  {
    if s[0] == null then 0 else 1 + FirstEmpty(s[1..])
  }

  /** The fill loop with the break it evidently lacks: b goes into the first
      empty slot only. */
  function FillFirstEmpty(s: seq<Body?>, b: Body): (r: seq<Body?>)
    requires null in s
    ensures |r| == |s|
    ensures forall i | 0 <= i < |s| && i != FirstEmpty(s) :: r[i] == s[i]
    ensures r[FirstEmpty(s)] == b
  {
    s[FirstEmpty(s) := b]
  }

  /** Writing one slot changes the count by what leaves and what enters it. */
  lemma {:induction false} CountAfterWrite(s: seq<Body?>, k: nat, x: Body?)
    requires k < |s|
    ensures CountNonNull(s[k := x]) ==
      CountNonNull(s) - (if s[k] != null then 1 else 0) + (if x != null then 1 else 0)
  {
    var t := s[k := x];
    if k < |s| - 1 {
      CountAfterWrite(s[..|s| - 1], k, x);
      assert t[..|t| - 1] == s[..|s| - 1][k := x];
    } else {
      assert t[..|t| - 1] == s[..|s| - 1];
    }
  }

  /** The corrected fill adds exactly one occupied slot, and b is the one body
      it adds. */
  lemma {:induction false} FillFirstEmptyAddsOne(s: seq<Body?>, b: Body)
    requires null in s
    ensures CountNonNull(FillFirstEmpty(s, b)) == CountNonNull(s) + 1
    ensures Held(FillFirstEmpty(s, b)) == Held(s) + {b}
  {
    var k := FirstEmpty(s);
    var r := FillFirstEmpty(s, b);
    CountAfterWrite(s, k, b);
    assert r[k] == b;
    forall x: Body | x in r
      ensures x in s || x == b
    {
      var i :| 0 <= i < |r| && r[i] == x;
      assert i == k || s[i] == x;
    }
    forall x: Body | x in s
      ensures x in r
    {
      var i :| 0 <= i < |s| && s[i] == x;
      assert r[i] == x;
    }
  }

  /** {x} when x is a body whose current position lies in c, {} otherwise: what a
      node on c may gain when x is added to it. */
  ghost function Within(c: Cube, x: Body?): (r: set<Body>)
    reads x, if x != null then {x.massCenter} else {}
    ensures x != null && In(c, x.Position()) <==> x in r
    ensures r <= (if x != null then {x} else {})
  {
    if x != null && In(c, x.Position()) then {x} else {}
  }

  // ---------------------------------------------------------------------------
  // The tree.

  class Octree {
    const octant: Octant
    const maxBodies: nat
    const bodies: array<Body?>
    /** The eight child slots. The source's array is private, never aliased and
        written only by divide, so it is kept as a sequence-valued field. */
    var children: seq<Octree?>
    var isDivided: bool

    /** The nodes of this subtree (this node, its children and theirs). */
    ghost var Nodes: set<Octree>

    /** Every object the subtree owns: its nodes and their body arrays. */
    ghost function Repr(): set<object>
      reads this
    {
      Nodes + (set n | n in Nodes :: n.bodies)
    }

    /** The cube this node covers. */
    function Cell(): Cube
    {
      octant.Geometry()
    }

    /** The shape of the tree: the capacity is the same at every node, a node is
        divided exactly when all eight child slots are filled, the child in slot i
        covers sub-cube i of its parent, and the children own disjoint parts. */
    ghost predicate Valid()
      reads this, Repr()
      decreases Nodes, 1
    {
      this in Nodes &&
      maxBodies <= 8 && bodies.Length == maxBodies && |children| == 8 &&
      (forall i :: 0 <= i < 8 ==> (children[i] != null <==> isDivided)) &&
      (isDivided ==>
        (forall i :: 0 <= i < 8 ==> children[i] in Nodes && ChildOk(i)) &&
        (forall i, j :: 0 <= i < j < 8 ==> children[i].Repr() !! children[j].Repr()))
    }

    ghost predicate ChildOk(i: nat)
      requires this in Nodes && |children| == 8 && i < 8
      reads this, Repr()
      decreases Nodes, 0
    {
      var c := children[i];
      c != null && c in Nodes && c.Nodes <= Nodes && this !in c.Nodes &&
      bodies !in c.Repr() &&
      c.maxBodies == maxBodies && c.Cell() == SubCube(Cell(), i) &&
      c.Valid()
    }

    /** The bodies stored anywhere in the subtree. */
    ghost function Stored(): set<Body>
      requires Valid()
      reads this, Repr()
      decreases Nodes, 3
    {
      Held(bodies[..]) + (set j: nat, x | j < 8 && x in Below(j) :: x)
    }

    /** The bodies stored under child slot j (none while the node is undivided). */
    ghost function Below(j: nat): set<Body>
      requires Valid() && j < 8
      reads this, Repr()
      decreases Nodes, 2
    {
      if isDivided then
        assert ChildOk(j);
        children[j].Stored()
      else {}
    }

    /** A new leaf with empty slots; the capacity is a parameter here, see README. */
    constructor (octant: Octant, maxBodies: nat)
      requires maxBodies <= 8
      ensures EmptyLeaf() && fresh(bodies)
      ensures Valid() && Stored() == {}
      ensures this.octant == octant && this.maxBodies == maxBodies
    {
      this.octant := octant;
      this.maxBodies := maxBodies;
      bodies := new Body?[maxBodies](_ => null);
      children := seq(8, _ => null);
      isDivided := false;
      Nodes := {this};
      new;
      EmptyLeafIsValid();
    }

    /** A node as the constructor leaves it: alone in its subtree, undivided,
        with every slot empty. */
    ghost predicate EmptyLeaf()
      reads this, bodies
    {
      Nodes == {this} && !isDivided && children == seq(8, _ => null) &&
      maxBodies <= 8 && bodies.Length == maxBodies &&
      forall k :: 0 <= k < bodies.Length ==> bodies[k] == null
    }

    lemma EmptyLeafIsValid()
      requires EmptyLeaf()
      ensures Valid() && Repr() == {this, bodies} && Stored() == {}
    {
      assert Held(bodies[..]) == {};
    }

    /** bodyCount: counts the occupied slots. */
    method BodyCount() returns (count: nat)
      ensures count == CountNonNull(bodies[..]) && count <= bodies.Length
    {
      count := 0;
      var i := 0;
      while i < bodies.Length
        invariant 0 <= i <= bodies.Length
        invariant count == CountNonNull(bodies[..i])
      {
        assert bodies[..i + 1][..i] == bodies[..i];
        if bodies[i] != null {
          count := count + 1;
        }
        i := i + 1;
      }
      assert bodies[..i] == bodies[..];
    }

    /** The fill loop of add: the loop has no break, so b goes into every empty slot. */
    method FillEmptySlots(b: Body)
      modifies bodies
      ensures bodies[..] == FillEmpty(old(bodies[..]), b)
    {
      var i := 0;
      while i < bodies.Length
        invariant 0 <= i <= bodies.Length
        invariant forall k | 0 <= k < i :: bodies[k] == FillEmpty(old(bodies[..]), b)[k]
        invariant forall k | i <= k < bodies.Length :: bodies[k] == old(bodies[k])
      {
        if bodies[i] == null {
          bodies[i] := b;
        }
        i := i + 1;
      }
    }

    /** The state of divide after its first k statements: child slots 0 to k-1
        hold new empty nodes on their sub-cubes, owning disjoint parts. */
    ghost predicate Building(k: nat)
      reads this, Repr()
    {
      k <= 8 && this in Nodes &&
      maxBodies <= 8 && bodies.Length == maxBodies && |children| == 8 &&
      (forall i :: 0 <= i < k ==>
        children[i] in Nodes && ChildOk(i) && children[i].EmptyLeaf()) &&
      (forall i, j :: 0 <= i < j < k ==> children[i].Repr() !! children[j].Repr())
    }

    /** One step of divide: child slot i receives a new empty node on sub-cube i. */
    method SetChild(i: nat)
      requires Building(i) && i < 8
      modifies this
      ensures Building(i + 1) && isDivided == old(isDivided)
      ensures children == old(children)[i := children[i]] && fresh(children[i])
      ensures fresh(Repr() - old(Repr()))
    {
      var c := NewLeaf(i);
      label Allocated:
      children := children[i := c];
      Nodes := Nodes + {c};
      forall j | 0 <= j < i + 1
        ensures children[j] in Nodes && ChildOk(j) && children[j].EmptyLeaf()
      {
        if j < i {
          assert old@Allocated(ChildOk(j));
        }
      }
    }

    /** A new empty node on sub-cube i of this node's cell, with the same capacity. */
    method NewLeaf(i: nat) returns (c: Octree)
      requires i < 8 && maxBodies <= 8
      ensures fresh(c) && fresh(c.bodies) && c.EmptyLeaf() && c.Valid()
      ensures c.maxBodies == maxBodies && c.Cell() == SubCube(Cell(), i)
    {
      var g := SubCube(Cell(), i);
      var o := new Octant(g.x, g.y, g.z, g.length);
      c := new Octree(o, maxBodies);
    }

    /** divide: eight new empty children, child i on sub-cube i (the source spells
        out the eight corner offsets, bit 0 of i for x, bit 1 for y, bit 2 for z),
        and the node is marked divided. Whatever old children there were are no
        longer part of the tree. */
    method Divide()
      requires Valid()
      modifies this
      ensures Valid() && isDivided && fresh(Repr() - old(Repr()))
      ensures forall i | 0 <= i < 8 ::
        children[i] != null && fresh(children[i]) && children[i].EmptyLeaf() &&
        children[i].Cell() == SubCube(Cell(), i)
      ensures forall j | 0 <= j < 8 :: Below(j) == {}
      ensures Stored() == Held(bodies[..])
    {
      Nodes := {this};
      for i := 0 to 8
        invariant Building(i) && fresh(Repr() - old(Repr()))
        invariant forall j | 0 <= j < i :: fresh(children[j])
      {
        SetChild(i);
      }
      label Done:
      isDivided := true;
      forall i | 0 <= i < 8
        ensures ChildOk(i) && children[i].EmptyLeaf() && children[i].Stored() == {}
      {
        assert old@Done(ChildOk(i) && children[i].EmptyLeaf());
        children[i].EmptyLeafIsValid();
      }
    }

    /** add. A body outside the node's octant is ignored. With a free slot, the
        fill loop stores it. Otherwise the node is divided unless it already is,
        the residents are pushed down (resident i into child i) and the body is
        offered to all eight children.
        Over the reals this recursion need not end (two bodies at the same corner
        keep being pushed into child 0), so `fuel` bounds the nesting: a call that
        would have to recurse with no fuel left changes nothing and reports
        `completed == false`, and a nested call that reports it makes its caller
        report it too. */
    method Add(b: Body, fuel: nat) returns (completed: bool)
      requires Valid()
      modifies Repr()
      decreases fuel, 6
      ensures Valid() && fresh(Repr() - old(Repr()))
      ensures Stored() <= old(Stored()) + Within(Cell(), b)
      ensures completed && In(Cell(), b.Position()) ==> b in Stored()
      ensures !In(Cell(), b.Position()) ==> completed && unchanged(old(Repr()))
      ensures In(Cell(), b.Position()) && old(CountNonNull(bodies[..])) < maxBodies ==>
        completed && bodies[..] == FillEmpty(old(bodies[..]), b) &&
        unchanged(old(Repr()) - {bodies}) && Stored() == old(Stored()) + {b}
      ensures In(Cell(), b.Position()) && old(CountNonNull(bodies[..])) == maxBodies && fuel == 0 ==>
        !completed && unchanged(old(Repr()))
      ensures In(Cell(), b.Position()) && old(CountNonNull(bodies[..])) == maxBodies && fuel > 0 ==>
        isDivided && (old(isDivided) ==> children == old(children)) &&
        (forall i | 0 <= i < bodies.Length :: bodies[i] == null) &&
        (forall j: nat | j < 8 ::
          Below(j) <= old(Below(j)) + Within(SubCube(Cell(), j), b) +
                      (if j < bodies.Length then Within(SubCube(Cell(), j), old(bodies[j])) else {})) &&
        (forall j: nat | j < 8 && !In(SubCube(Cell(), j), b.Position()) &&
          (j < bodies.Length ==> Within(SubCube(Cell(), j), old(bodies[j])) == {}) ::
          Below(j) == old(Below(j))) &&
        (completed ==>
          forall j: nat | j < bodies.Length && !In(SubCube(Cell(), j), b.Position()) ::
            Within(SubCube(Cell(), j), old(bodies[j])) <= Below(j))
      ensures fuel > 0 && maxBodies >= 1 &&
              (forall m: nat | m < bodies.Length ::
                Within(SubCube(Cell(), m), old(bodies[m])) == {} || old(Below(m)) == {}) &&
              (!In(Cell(), b.Position()) ||
                var h := ChildIndex(Cell(), b.Position());
                old(Below(h)) == {} &&
                (h < bodies.Length ==> Within(SubCube(Cell(), h), old(bodies[h])) == {}))
              ==> completed
    {
      Outside(b);
      if !octant.Contains(b.massCenter) {
        return true;
      }
      // bodyCount(): the number of occupied slots, as BodyCount computes it.
      var count := CountNonNull(bodies[..]);
      if count < maxBodies {
        CountFullIffNoEmptySlot(bodies[..]);
        Store(b);
        return true;
      }
      if fuel == 0 {
        return false;
      }
      completed := Overflow(b, fuel);
    }

    /** A subtree that stores nothing has every slot of its root empty. */
    lemma EmptyHasRoom()
      requires Valid() && Stored() == {}
      ensures CountNonNull(bodies[..]) == 0
    {
      NoneHeldCountsZero(bodies[..]);
    }

    /** A child that stores nothing has a free slot, if the capacity is not zero. */
    lemma ChildHasRoom(k: nat)
      requires Valid() && isDivided && k < 8 && Below(k) == {}
      ensures CountNonNull(children[k].bodies[..]) == 0
    {
      assert ChildOk(k);
      children[k].EmptyHasRoom();
    }

    /** The bodies of the slots and of every child subtree are stored. */
    lemma BelowInStored(j: nat)
      requires Valid() && j < 8
      ensures Held(bodies[..]) <= Stored() && Below(j) <= Stored()
    {
    }

    /** A set that takes in the slots and every child subtree takes in what is stored. */
    lemma StoredBound(bound: set<Body>)
      requires Valid()
      requires Held(bodies[..]) <= bound
      requires forall j: nat | j < 8 :: Below(j) <= bound
      ensures Stored() <= bound
    {
    }

    /** The fill branch of add: runs the fill loop and keeps the tree's shape;
        b joins the stored bodies. */
    method Store(b: Body)
      requires Valid() && null in bodies[..]
      modifies bodies
      ensures Valid() && bodies[..] == FillEmpty(old(bodies[..]), b)
      ensures Stored() == old(Stored()) + {b}
    {
      FillEmptyHolds(bodies[..], b);
      FillEmptySlots(b);
      forall j | 0 <= j < 8 && isDivided
        ensures ChildOk(j) && children[j].Stored() == old(children[j].Stored())
      {
        assert old(ChildOk(j));
      }
      assert forall j: nat | j < 8 :: Below(j) == old(Below(j));
    }

    /** The overflow branch of add with fuel left. What is stored afterwards was
        stored before or is b; b is stored if the call completed. */
    method Overflow(b: Body, fuel: nat) returns (completed: bool)
      requires Valid() && fuel > 0
      modifies Repr()
      decreases fuel, 5
      ensures Valid() && isDivided && fresh(Repr() - old(Repr()))
      ensures old(isDivided) ==> children == old(children)
      ensures forall i | 0 <= i < bodies.Length :: bodies[i] == null
      ensures forall j: nat | j < 8 ::
        Below(j) <= old(Below(j)) + Within(SubCube(Cell(), j), b) +
                    (if j < bodies.Length then Within(SubCube(Cell(), j), old(bodies[j])) else {})
      ensures forall j: nat | j < 8 && !In(SubCube(Cell(), j), b.Position()) &&
        (j < bodies.Length ==> Within(SubCube(Cell(), j), old(bodies[j])) == {}) ::
        Below(j) == old(Below(j))
      ensures completed ==>
        forall j: nat | j < bodies.Length && !In(SubCube(Cell(), j), b.Position()) ::
          Within(SubCube(Cell(), j), old(bodies[j])) <= Below(j)
      ensures Stored() <= old(Stored()) + Within(Cell(), b)
      ensures completed && In(Cell(), b.Position()) ==> b in Stored()
      ensures maxBodies >= 1 &&
              (forall m: nat | m < bodies.Length ::
                Within(SubCube(Cell(), m), old(bodies[m])) == {} || old(Below(m)) == {}) &&
              (!In(Cell(), b.Position()) ||
                var h := ChildIndex(Cell(), b.Position());
                old(Below(h)) == {} &&
                (h < bodies.Length ==> Within(SubCube(Cell(), h), old(bodies[h])) == {}))
              ==> completed
    {
      Outside(b);
      forall j: nat | j < 8
        ensures Held(bodies[..]) <= Stored() && Below(j) <= Stored()
      {
        BelowInStored(j);
      }
      completed := Spill(b, fuel);
      forall j: nat | j < 8
        ensures old(Below(j)) + Within(SubCube(Cell(), j), b) +
                (if j < bodies.Length then Within(SubCube(Cell(), j), old(bodies[j])) else {})
             <= old(Stored()) + Within(Cell(), b)
      {
        SubCubesPartition(Cell(), b.Position(), j);
        if j < bodies.Length && old(bodies[j]) != null {
          assert old(bodies[j]) in old(Held(bodies[..]));
        }
      }
      StoredBound(old(Stored()) + Within(Cell(), b));
      if completed && In(Cell(), b.Position()) {
        BelowInStored(ChildIndex(Cell(), b.Position()));
      }
    }

    /** Divide unless divided, push the residents down, offer b to the children. */
    method Spill(b: Body, fuel: nat) returns (completed: bool)
      requires Valid() && fuel > 0
      modifies Repr()
      decreases fuel, 4
      ensures Valid() && isDivided && fresh(Repr() - old(Repr()))
      ensures old(isDivided) ==> children == old(children)
      ensures forall i | 0 <= i < bodies.Length :: bodies[i] == null
      ensures forall j: nat | j < 8 ::
        Below(j) <= old(Below(j)) + Within(SubCube(Cell(), j), b) +
                    (if j < bodies.Length then Within(SubCube(Cell(), j), old(bodies[j])) else {})
      ensures forall j: nat | j < 8 && !In(SubCube(Cell(), j), b.Position()) &&
        (j < bodies.Length ==> Within(SubCube(Cell(), j), old(bodies[j])) == {}) ::
        Below(j) == old(Below(j))
      ensures completed ==>
        forall j: nat | j < bodies.Length && !In(SubCube(Cell(), j), b.Position()) ::
          Within(SubCube(Cell(), j), old(bodies[j])) <= Below(j)
      ensures completed && In(Cell(), b.Position()) ==> b in Below(ChildIndex(Cell(), b.Position()))
      ensures maxBodies >= 1 &&
              (forall m: nat | m < bodies.Length ::
                Within(SubCube(Cell(), m), old(bodies[m])) == {} || old(Below(m)) == {}) &&
              (!In(Cell(), b.Position()) ||
                var h := ChildIndex(Cell(), b.Position());
                old(Below(h)) == {} &&
                (h < bodies.Length ==> Within(SubCube(Cell(), h), old(bodies[h])) == {}))
              ==> completed
    {
      Outside(b);
      forall m | 0 <= m < bodies.Length && bodies[m] != null
        ensures bodies[m] !in Repr() && bodies[m].massCenter !in Repr()
      {
        Outside(bodies[m]);
      }
      DivideOnce();
      var pushed := PushDown(fuel);
      forall m | 0 <= m < bodies.Length && old(bodies[m]) != null
        ensures old(bodies[m]) !in Repr() && old(bodies[m]).massCenter !in Repr()
      {
        Outside(old(bodies[m]));
      }
      var offered := Offer(b, fuel);
      completed := pushed && offered;
    }

    /** Divides the node unless it already is: afterwards it is divided, a node
        that already was keeps its children, and every child slot stores what it
        stored before (nothing, for a node divided just now). */
    method DivideOnce()
      requires Valid()
      modifies this
      ensures Valid() && isDivided && fresh(Repr() - old(Repr()))
      ensures old(isDivided) ==> children == old(children)
      ensures forall j: nat | j < 8 :: Below(j) == old(Below(j))
    {
      if !isDivided {
        Divide();
      }
    }

    /** The nested loops of add's overflow branch: for every slot i and every child
        index j, a slot that still holds a body hands it to child i and is cleared.
        So resident i is offered to child i only. */
    method PushDown(fuel: nat) returns (completed: bool)
      requires Valid() && isDivided && fuel > 0
      modifies Repr()
      decreases fuel, 3
      ensures Valid() && isDivided && fresh(Repr() - old(Repr()))
      ensures children == old(children)
      ensures forall i | 0 <= i < bodies.Length :: bodies[i] == null
      ensures forall m: nat | m < 8 ::
        Below(m) <= old(Below(m)) +
                    (if m < bodies.Length then Within(SubCube(Cell(), m), old(bodies[m])) else {})
      ensures forall m: nat | m < 8 &&
        (m < bodies.Length ==> Within(SubCube(Cell(), m), old(bodies[m])) == {}) ::
        Below(m) == old(Below(m))
      ensures completed ==>
        forall m: nat | m < bodies.Length :: Within(SubCube(Cell(), m), old(bodies[m])) <= Below(m)
      ensures maxBodies >= 1 &&
              (forall m: nat | m < bodies.Length ::
                Within(SubCube(Cell(), m), old(bodies[m])) == {} || old(Below(m)) == {})
              ==> completed
    {
      completed := true;
      for i := 0 to bodies.Length
        invariant Valid() && isDivided && fresh(Repr() - old(Repr()))
        invariant children == old(children)
        invariant forall k | 0 <= k < i :: bodies[k] == null
        invariant forall k | i <= k < bodies.Length :: bodies[k] == old(bodies[k])
        invariant forall m: nat | m < 8 ::
          var share := if m < i then Within(SubCube(Cell(), m), old(bodies[m])) else {};
          Below(m) <= old(Below(m)) + share &&
          (share == {} ==> Below(m) == old(Below(m))) &&
          (completed ==> share <= Below(m))
        invariant maxBodies >= 1 &&
                  (forall m: nat | m < bodies.Length ::
                    Within(SubCube(Cell(), m), old(bodies[m])) == {} || old(Below(m)) == {})
                  ==> completed
      {
        forall m | 0 <= m < bodies.Length && old(bodies[m]) != null
          ensures old(bodies[m]) !in Repr() && old(bodies[m]).massCenter !in Repr()
        {
          Outside(old(bodies[m]));
        }
        assert bodies[i] == old(bodies[i]);
        var ok := PushRound(i, fuel);
        completed := completed && ok;
      }
    }

    /** The inner loop for slot i: on its first pass a resident is handed to
        child i and the slot cleared; the remaining passes find the slot empty. */
    method PushRound(i: nat, fuel: nat) returns (completed: bool)
      requires Valid() && isDivided && fuel > 0 && i < bodies.Length
      modifies Repr()
      decreases fuel, 2
      ensures Valid() && isDivided && fresh(Repr() - old(Repr()))
      ensures children == old(children) && bodies[..] == old(bodies[..])[i := null]
      ensures forall m: nat | m < 8 && m != i :: Below(m) == old(Below(m))
      ensures Below(i) <= old(Below(i)) + Within(SubCube(Cell(), i), old(bodies[i]))
      ensures Within(SubCube(Cell(), i), old(bodies[i])) == {} ==> Below(i) == old(Below(i))
      ensures completed ==> Within(SubCube(Cell(), i), old(bodies[i])) <= Below(i)
      ensures Within(SubCube(Cell(), i), old(bodies[i])) == {} ||
              (maxBodies >= 1 && old(Below(i)) == {})
              ==> completed
    {
      completed := true;
      if bodies[i] == null {
        assert bodies[..] == old(bodies[..])[i := null];
      }
      for j := 0 to |children|
        invariant Valid() && isDivided && fresh(Repr() - old(Repr()))
        invariant children == old(children)
        invariant bodies[..] == if j == 0 then old(bodies[..]) else old(bodies[..])[i := null]
        invariant forall m: nat | m < 8 && m != i :: Below(m) == old(Below(m))
        invariant Below(i) <= old(Below(i)) + Within(SubCube(Cell(), i), old(bodies[i]))
        invariant Within(SubCube(Cell(), i), old(bodies[i])) == {} ==> Below(i) == old(Below(i))
        invariant completed && j > 0 ==> Within(SubCube(Cell(), i), old(bodies[i])) <= Below(i)
        invariant j == 0 ==> Below(i) == old(Below(i))
        invariant Within(SubCube(Cell(), i), old(bodies[i])) == {} ||
                  (maxBodies >= 1 && old(Below(i)) == {})
                  ==> completed
      {
        if bodies[i] != null {
          Outside(bodies[i]);
          var ok := PushSlot(i, fuel);
          completed := completed && ok;
        }
      }
    }

    /** One pass of the inner loop that finds slot i occupied:
        children[i].add(bodies[i]), then the slot is cleared. */
    method PushSlot(i: nat, fuel: nat) returns (completed: bool)
      requires Valid() && isDivided && fuel > 0 && i < bodies.Length && bodies[i] != null
      modifies Repr()
      decreases fuel, 1
      ensures Valid() && isDivided && fresh(Repr() - old(Repr()))
      ensures children == old(children) && bodies[..] == old(bodies[..])[i := null]
      ensures forall m: nat | m < 8 && m != i :: Below(m) == old(Below(m))
      ensures Below(i) <= old(Below(i)) + Within(SubCube(Cell(), i), old(bodies[i]))
      ensures Within(SubCube(Cell(), i), old(bodies[i])) == {} ==> Below(i) == old(Below(i))
      ensures completed ==> Within(SubCube(Cell(), i), old(bodies[i])) <= Below(i)
      ensures Within(SubCube(Cell(), i), old(bodies[i])) == {} ||
              (maxBodies >= 1 && old(Below(i)) == {})
              ==> completed
    {
      if Below(i) == {} {
        ChildHasRoom(i);
      }
      completed := AddToChild(i, bodies[i], fuel);
      ClearSlot(i);
    }

    /** The last loop of add's overflow branch: every child is offered b. Only the
        child whose sub-cube contains b can take it. */
    method Offer(b: Body, fuel: nat) returns (completed: bool)
      requires Valid() && isDivided && fuel > 0
      modifies Repr()
      decreases fuel, 3
      ensures Valid() && isDivided && fresh(Repr() - old(Repr()))
      ensures children == old(children) && bodies[..] == old(bodies[..])
      ensures b.Position() == old(b.Position())
      ensures forall j: nat | j < 8 :: Below(j) <= old(Below(j) + Within(SubCube(Cell(), j), b))
      ensures forall j: nat | j < 8 && !In(SubCube(Cell(), j), b.Position()) :: Below(j) == old(Below(j))
      ensures completed && In(Cell(), b.Position()) ==> b in Below(ChildIndex(Cell(), b.Position()))
      ensures !In(Cell(), b.Position()) ||
              (maxBodies >= 1 && old(Below(ChildIndex(Cell(), b.Position()))) == {})
              ==> completed
    {
      Outside(b);
      completed := true;
      var p := b.Position();
      var home := ChildIndex(Cell(), p);
      forall j: nat | j < 8
        ensures In(SubCube(Cell(), j), p) <==> In(Cell(), p) && j == home
      {
        SubCubesPartition(Cell(), p, j);
      }
      for k := 0 to |children|
        invariant Valid() && isDivided
        invariant forall o | o in Repr() && o !in old(Repr()) :: fresh(o)
        invariant children == old(children) && bodies[..] == old(bodies[..])
        invariant b.Position() == p
        invariant forall j: nat | j < 8 && !In(SubCube(Cell(), j), p) :: Below(j) == old(Below(j))
        invariant Below(home) <= old(Below(home)) + (if In(Cell(), p) then {b} else {})
        invariant completed && In(Cell(), p) && home < k ==> b in Below(home)
        invariant k <= home ==> Below(home) == old(Below(home))
        invariant !In(Cell(), p) || (maxBodies >= 1 && old(Below(home)) == {}) ==> completed
      {
        if k == home && Below(k) == {} {
          ChildHasRoom(k);
        }
        var ok := AddToChild(k, b, fuel);
        completed := completed && ok;
      }
    }

    /** children[k].add(x), as both loops of add's overflow branch make it; only
        the subtree under child k changes. */
    method AddToChild(k: nat, x: Body, fuel: nat) returns (completed: bool)
      requires Valid() && isDivided && fuel > 0 && k < 8
      modifies Repr()
      decreases fuel, 0
      ensures Valid() && isDivided && fresh(Repr() - old(Repr()))
      ensures children == old(children) && bodies[..] == old(bodies[..])
      ensures forall j: nat | j < 8 && j != k :: Below(j) == old(Below(j))
      ensures Below(k) <= old(Below(k)) + Within(SubCube(Cell(), k), x)
      ensures !In(SubCube(Cell(), k), x.Position()) ==> Below(k) == old(Below(k))
      ensures x.Position() == old(x.Position())
      ensures completed && In(SubCube(Cell(), k), x.Position()) ==> x in Below(k)
      ensures !In(SubCube(Cell(), k), x.Position()) ||
              old(CountNonNull(children[k].bodies[..])) < maxBodies
              ==> completed
    {
      assert ChildOk(k);
      var child := children[k];
      assert Below(k) == child.Stored() && child.Cell() == SubCube(Cell(), k);
      child.Outside(x);
      completed := child.Add(x, fuel - 1);
      assert this !in child.Repr() && bodies !in child.Repr();
      label Added:
      Nodes := Nodes + child.Nodes;
      child.Kept@Added();
      forall j | 0 <= j < 8 && j != k
        ensures unchanged(old(children[j].Repr()))
      {
        if j < k {
          assert old(children[j].Repr() !! children[k].Repr());
        } else {
          assert old(children[k].Repr() !! children[j].Repr());
        }
      }
      Regrown(k);
      assert Below(k) == child.Stored();
    }

    /** A body and its position vector are never part of a subtree. */
    lemma Outside(x: Body)
      ensures x !in Repr() && x.massCenter !in Repr()
    {
    }

    /** A subtree none of whose objects a step has touched is as valid as it
        was and stores what it stored. */
    twostate lemma Kept()
      requires old(Valid()) && unchanged(old(Repr()))
      ensures Valid() && Repr() == old(Repr()) && Stored() == old(Stored())
      ensures bodies[..] == old(bodies[..])
      ensures forall j: nat | j < 8 :: Below(j) == old(Below(j))
    {
    }

    /** A child whose subtree no step has touched is still a proper child, and
        stores what it stored. */
    twostate lemma OtherChildKept(j: nat)
      requires old(Valid()) && old(isDivided) && j < 8
      requires this in Nodes && old(Nodes) <= Nodes && children == old(children)
      requires unchanged(old(children[j].Repr()))
      ensures children[j] in Nodes && ChildOk(j)
      ensures children[j].Repr() == old(children[j].Repr())
      ensures children[j].Stored() == old(children[j].Stored())
    {
      assert old(ChildOk(j));
      var c := children[j];
      assert old(c.Valid());
      assert c in old(c.Repr());
      assert c.Nodes == old(c.Nodes);
    }

    /** After child k's subtree has grown by new objects only, and no other
        child's subtree has been touched, the node is valid again. */
    twostate lemma Regrown(k: nat)
      requires old(Valid()) && old(isDivided) && k < 8
      requires isDivided && children == old(children) && Nodes == old(Nodes) + children[k].Nodes
      requires children[k].Valid() && fresh(children[k].Repr() - old(children[k].Repr()))
      requires this !in children[k].Repr() && bodies !in children[k].Repr()
      requires forall j | 0 <= j < 8 && j != k :: unchanged(old(children[j].Repr()))
      ensures Valid()
      ensures forall j: nat | j < 8 && j != k :: Below(j) == old(Below(j))
    {
      assert old(ChildOk(k));
      forall j | 0 <= j < 8
        ensures children[j] in Nodes && ChildOk(j)
        ensures j != k ==> children[j].Repr() == old(children[j].Repr())
        ensures j != k ==> children[j].Stored() == old(children[j].Stored())
      {
        if j != k {
          OtherChildKept(j);
        }
      }
      forall i, j | 0 <= i < j < 8
        ensures children[i].Repr() !! children[j].Repr()
      {
        assert old(children[i].Repr() !! children[j].Repr());
      }
    }

    /** bodies[i] = null, after slot i's resident has been handed down. */
    method ClearSlot(i: nat)
      requires Valid() && isDivided && i < bodies.Length
      modifies bodies
      ensures Valid() && isDivided
      ensures bodies[..] == old(bodies[..])[i := null]
      ensures forall j: nat | j < 8 :: Below(j) == old(Below(j))
    {
      bodies[i] := null;
      forall j | 0 <= j < 8
        ensures ChildOk(j) && children[j].Stored() == old(children[j].Stored())
      {
        assert old(ChildOk(j));
      }
    }

    /** The push step as evidently intended: resident i goes to the child whose
        sub-cube contains it, so a resident inside the node's cell is kept. The
        slot is cleared, and nothing new joins the subtree. */
    method PushHome(i: nat, fuel: nat) returns (completed: bool)
      requires Valid() && isDivided && fuel > 0 && i < bodies.Length && bodies[i] != null
      requires In(Cell(), bodies[i].Position())
      modifies Repr()
      ensures Valid() && isDivided && fresh(Repr() - old(Repr()))
      ensures children == old(children) && bodies[..] == old(bodies[..])[i := null]
      ensures Stored() <= old(Stored())
      ensures completed ==> old(bodies[i]) in Stored()
      ensures maxBodies >= 1 && old(Below(ChildIndex(Cell(), bodies[i].Position()))) == {} ==> completed
    {
      var x := bodies[i];
      Outside(x);
      var home := ChildIndex(Cell(), x.Position());
      SubCubesPartition(Cell(), x.Position(), home);
      forall j: nat | j < 8
        ensures Held(bodies[..]) <= Stored() && Below(j) <= Stored()
      {
        BelowInStored(j);
      }
      assert x in Held(bodies[..]);
      if Below(home) == {} {
        ChildHasRoom(home);
      }
      completed := AddToChild(home, x, fuel);
      ClearSlot(i);
      forall j: nat | j < 8
        ensures Below(j) <= old(Stored())
      {
      }
      forall y | y in Held(bodies[..])
        ensures y in old(Held(bodies[..]))
      {
        var m :| 0 <= m < bodies.Length && bodies[m] == y;
        assert old(bodies[m]) == y;
      }
      StoredBound(old(Stored()));
      if completed {
        BelowInStored(home);
      }
    }
  }

  /** The push step as written loses a resident. A full node of capacity 1 on
      the cube of edge 2 at the origin, holding a at (1.5, 1.5, 1.5); adding b
      at (0.5, 0.5, 0.5) divides the node, hands a to child 0 (the sub-cube at
      the origin, which does not contain a) and then b: a is no longer stored. */
  method LostResident(tree: Octree, a: Body, b: Body) returns (completed: bool)
    requires tree.Valid() && !tree.isDivided
    requires tree.maxBodies == 1 && tree.Cell() == Cube(0.0, 0.0, 0.0, 2.0)
    requires tree.bodies[0] == a
    requires a.Position() == Vec(1.5, 1.5, 1.5) && b.Position() == Vec(0.5, 0.5, 0.5)
    modifies tree.Repr()
    ensures tree.Valid() && a in old(tree.Stored()) && a !in tree.Stored()
  {
    tree.Outside(a);
    assert a in Held(tree.bodies[..]);
    assert tree.bodies[..] == [a];
    completed := tree.Add(b, 1);
    forall j: nat | j < 8
      ensures a !in tree.Below(j)
    {
      SubCubesPartition(tree.Cell(), a.Position(), j);
    }
  }

  /** Overflow completes when the children it uses have room. A full node of
      capacity 1 on the cube of edge 2 at the origin, holding r at
      (1.5, 1.5, 1.5); adding b at (0.5, 0.5, 0.5) divides the node, and both
      pushes land in empty children, so the call completes and stores b. */
  method OverflowStoresNewBody(tree: Octree, r: Body, b: Body) returns (completed: bool)
    requires tree.Valid() && !tree.isDivided
    requires tree.maxBodies == 1 && tree.Cell() == Cube(0.0, 0.0, 0.0, 2.0)
    requires tree.bodies[0] == r
    requires r.Position() == Vec(1.5, 1.5, 1.5) && b.Position() == Vec(0.5, 0.5, 0.5)
    modifies tree.Repr()
    ensures tree.Valid() && completed && b in tree.Stored()
  {
    SubCubesPartition(tree.Cell(), r.Position(), 0);
    SubCubesPartition(tree.Cell(), b.Position(), 0);
    completed := tree.Add(b, 10);
  }

  /** The same run from a new tree: r fills the only slot, then b overflows it. */
  method CapacityOneRun(r: Body, b: Body) returns (tree: Octree, completed: bool)
    requires r.Position() == Vec(1.5, 1.5, 1.5) && b.Position() == Vec(0.5, 0.5, 0.5)
    ensures tree.Valid() && completed && b in tree.Stored()
  {
    var cell := new Octant(0.0, 0.0, 0.0, 2.0);
    tree := new Octree(cell, 1);
    tree.EmptyHasRoom();
    var stored := tree.Add(r, 10);
    assert tree.bodies[0] == r;
    completed := OverflowStoresNewBody(tree, r, b);
  }
}
