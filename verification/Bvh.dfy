// Hittable objects, the plain hit list and the bounding volume hierarchy.
module Bvh {
  import opened Wrappers
  import opened RayGeometry
  import Words

  // hit_record; `data` is what else an object records about the hit.
  datatype Record = Record(t: real, data: int)

  // A hittable: what it answers for a ray and a range, and its bounding box.
  datatype Object = Object(hit: (Ray, real, real) -> Option<Record>, box: Aabb)

  // What the hierarchy relies on. An object answers its nearest hit in the closed
  // range, so narrowing the range keeps that hit or leaves none; and its box never
  // rejects a hit strictly inside the range.
  ghost predicate Answers(o: Object, r: Ray, tMin: real, tMax: real)
    requires Slanted(r)
  {
    match o.hit(r, tMin, tMax)
    case None =>
      forall t :: t <= tMax ==> o.hit(r, tMin, t) == None
    case Some(rec) =>
      && tMin <= rec.t <= tMax
      && (tMin < rec.t < tMax ==> HitsBox(o.box, r, tMin, tMax))
      && (forall t :: t <= tMax ==> o.hit(r, tMin, t) == if rec.t <= t then Some(rec) else None)
  }

  ghost predicate Good(o: Object) {
    ProperBox(o.box) && forall r, tMin, tMax :: Slanted(r) ==> Answers(o, r, tMin, tMax)
  }

  ghost predicate AllGood(objects: seq<Object>) {
    forall i :: 0 <= i < |objects| ==> Good(objects[i])
  }

  /* ----- the hit list ----- */

  // The result of scanning the list, nearest hit so far in `best`.
  function Scan(objects: seq<Object>, r: Ray, tMin: real, tMax: real): Option<Record> {
    if objects == [] then None
    else
      var n := |objects| - 1;
      var best := Scan(objects[..n], r, tMin, tMax);
      var here := objects[n].hit(r, tMin, if best.Some? then best.value.t else tMax);
      if here.Some? then here else best
  }

  // hittable_list::hit
  method HitList(objects: seq<Object>, r: Ray, tMin: real, tMax: real, rec: Record) returns (hit: bool, rec': Record)
    ensures hit == Scan(objects, r, tMin, tMax).Some?
    ensures rec' == if hit then Scan(objects, r, tMin, tMax).value else rec
  {
    hit, rec' := false, rec;
    var closestSoFar := tMax;
    for i := 0 to |objects|
      invariant hit == Scan(objects[..i], r, tMin, tMax).Some?
      invariant rec' == if hit then Scan(objects[..i], r, tMin, tMax).value else rec
      invariant closestSoFar == if hit then rec'.t else tMax
    {
      assert objects[..i + 1][..i] == objects[..i];
      var temp := objects[i].hit(r, tMin, closestSoFar);
      if temp.Some? {
        hit := true;
        closestSoFar := temp.value.t;
        rec' := temp.value;
      }
    }
    assert objects[..|objects|] == objects;
  }

  // `res` is a nearest hit in the range among the objects, or there is none.
  ghost predicate IsNearest(objects: seq<Object>, r: Ray, tMin: real, tMax: real, res: Option<Record>) {
    match res
    case None => forall i :: 0 <= i < |objects| ==> objects[i].hit(r, tMin, tMax) == None
    case Some(rec) =>
      && (exists i :: 0 <= i < |objects| && objects[i].hit(r, tMin, tMax) == Some(rec))
      && (forall i :: 0 <= i < |objects| && objects[i].hit(r, tMin, tMax).Some? ==>
            rec.t <= objects[i].hit(r, tMin, tMax).value.t)
  }

  lemma {:induction false} ScanIsNearest(objects: seq<Object>, r: Ray, tMin: real, tMax: real)
    requires AllGood(objects) && Slanted(r)
    ensures IsNearest(objects, r, tMin, tMax, Scan(objects, r, tMin, tMax))
  {
    hide HitsBox;
    if objects != [] {
      var n := |objects| - 1;
      ScanIsNearest(objects[..n], r, tMin, tMax);
      assert Good(objects[n]) && Answers(objects[n], r, tMin, tMax);
      var best := Scan(objects[..n], r, tMin, tMax);
      if best.Some? {
        var i :| 0 <= i < n && objects[..n][i].hit(r, tMin, tMax) == best;
        assert Good(objects[i]) && Answers(objects[i], r, tMin, tMax);
        assert objects[i].hit(r, tMin, tMax) == best;
      }
      var here := objects[n].hit(r, tMin, if best.Some? then best.value.t else tMax);
      assert here.Some? ==> here == objects[n].hit(r, tMin, tMax);
    }
  }

  /* ----- the hierarchy ----- */

  // A child is a node or an object; the root is always a node.
  datatype Tree = Leaf(item: Object) | Node(left: Tree, right: Tree, box: Aabb)

  function Objects(b: Tree): seq<Object> {
    match b
    case Leaf(o) => [o]
    case Node(left, right, _) => Objects(left) + Objects(right)
  }

  function BoxOf(b: Tree): Aabb {
    match b case Leaf(o) => o.box case Node(_, _, box) => box
  }

  // Every node's box contains the boxes of all objects below it.
  ghost predicate Bounded(b: Tree) {
    match b
    case Leaf(_) => true
    case Node(left, right, box) =>
      && Bounded(left) && Bounded(right)
      && forall i :: 0 <= i < |Objects(b)| ==> Contains(box, Objects(b)[i].box)
  }

  // bvh_node::hit
  function Find(b: Tree, r: Ray, tMin: real, tMax: real): Option<Record>
    requires Slanted(r)
  {
    match b
    case Leaf(o) => o.hit(r, tMin, tMax)
    case Node(left, right, box) =>
      if !HitsBox(box, r, tMin, tMax) then None
      else
        var l := Find(left, r, tMin, tMax);
        var h := Find(right, r, tMin, if l.Some? then l.value.t else tMax);
        if h.Some? then h else l
  }

  method Hit(b: Tree, r: Ray, tMin: real, tMax: real, rec: Record) returns (hit: bool, rec': Record)
    requires Slanted(r)
    ensures hit == Find(b, r, tMin, tMax).Some?
    ensures rec' == if hit then Find(b, r, tMin, tMax).value else rec
  {
    rec' := rec;
    match b
    case Leaf(o) =>
      var answer := o.hit(r, tMin, tMax);
      hit := answer.Some?;
      if hit { rec' := answer.value; }
    case Node(left, right, box) =>
      if !HitsBox(box, r, tMin, tMax) {
        return false, rec';
      }
      var hitLeft, hitRight;
      hitLeft, rec' := Hit(left, r, tMin, tMax, rec');
      hitRight, rec' := Hit(right, r, tMin, if hitLeft then rec'.t else tMax, rec');
      hit := hitLeft || hitRight;
  }

  // What the tree reports is an answer of one of its objects on the whole range.
  lemma {:induction false} FindIsSound(b: Tree, r: Ray, tMin: real, tMax: real) returns (i: nat)
    requires AllGood(Objects(b)) && Slanted(r) && Find(b, r, tMin, tMax).Some?
    ensures i < |Objects(b)| && Objects(b)[i].hit(r, tMin, tMax) == Find(b, r, tMin, tMax)
    ensures tMin <= Find(b, r, tMin, tMax).value.t <= tMax
  {
    hide HitsBox, Answers;
    match b
    case Leaf(o) =>
      i := 0;
      assert Good(Objects(b)[0]) && Answers(o, r, tMin, tMax);
      AnswerRange(o, r, tMin, tMax, tMax);
    case Node(left, right, box) =>
      GoodChildren(b);
      var l := Find(left, r, tMin, tMax);
      if l.Some? { i := FindIsSound(left, r, tMin, tMax); }
      var tRight := if l.Some? then l.value.t else tMax;
      if Find(right, r, tMin, tRight).Some? {
        var j := FindIsSound(right, r, tMin, tRight);
        i := |Objects(left)| + j;
        assert Good(Objects(right)[j]) && Answers(Objects(right)[j], r, tMin, tMax);
        AnswerRange(Objects(right)[j], r, tMin, tMax, tRight);
      }
  }

  lemma GoodChildren(b: Tree)
    requires b.Node? && AllGood(Objects(b))
    ensures AllGood(Objects(b.left)) && AllGood(Objects(b.right))
  {
    hide Good;
    forall i | 0 <= i < |Objects(b.left)| ensures Good(Objects(b.left)[i]) {
      assert Objects(b)[i] == Objects(b.left)[i];
    }
    forall i | 0 <= i < |Objects(b.right)| ensures Good(Objects(b.right)[i]) {
      assert Objects(b)[|Objects(b.left)| + i] == Objects(b.right)[i];
    }
  }

  // The same hit on the narrower and the wider range.
  lemma AnswerRange(o: Object, r: Ray, tMin: real, tMax: real, t: real)
    requires Slanted(r) && Answers(o, r, tMin, tMax) && t <= tMax
    ensures o.hit(r, tMin, t).Some? ==>
              o.hit(r, tMin, t) == o.hit(r, tMin, tMax) && tMin <= o.hit(r, tMin, t).value.t <= t
    ensures o.hit(r, tMin, tMax).Some? && o.hit(r, tMin, tMax).value.t <= t ==>
              o.hit(r, tMin, t) == o.hit(r, tMin, tMax)
  {
  }

  // A hit strictly inside the range is found, or one at least as near: the boxes on
  // the way to it let the ray through, also with the range shrunk by the left child.
  lemma {:induction false} FindIsComplete(b: Tree, r: Ray, tMin: real, tMax: real, i: nat)
    requires AllGood(Objects(b)) && Bounded(b) && Slanted(r) && i < |Objects(b)|
    requires Objects(b)[i].hit(r, tMin, tMax).Some? && tMin < Objects(b)[i].hit(r, tMin, tMax).value.t < tMax
    ensures Find(b, r, tMin, tMax).Some?
    ensures Find(b, r, tMin, tMax).value.t <= Objects(b)[i].hit(r, tMin, tMax).value.t
  {
    hide HitsBox, Contains;
    var o := Objects(b)[i];
    assert Good(o) && Answers(o, r, tMin, tMax);
    match b
    case Leaf(_) =>
    case Node(left, right, box) =>
      GoodChildren(b);
      HitsBoxMonotone(box, o.box, r, tMin, tMax, tMax);
      var l := Find(left, r, tMin, tMax);
      var t := o.hit(r, tMin, tMax).value.t;
      if i < |Objects(left)| {
        FindIsComplete(left, r, tMin, tMax, i);
      } else if l.None? || t < l.value.t {
        var tRight := if l.Some? then l.value.t else tMax;
        if l.Some? { var j := FindIsSound(left, r, tMin, tMax); }
        FindIsComplete(right, r, tMin, tRight, i - |Objects(left)|);
      }
      if l.Some? && Find(right, r, tMin, l.value.t).Some? {
        var j := FindIsSound(right, r, tMin, l.value.t);
      }
  }

  // The same objects, whatever their order and number of copies.
  ghost predicate SameObjects(a: seq<Object>, b: seq<Object>) {
    (forall i :: 0 <= i < |a| ==> a[i] in b) && (forall i :: 0 <= i < |b| ==> b[i] in a)
  }

  // Main result: against the plain list the hierarchy never invents a hit and never
  // reports a nearer one; it misses none strictly inside the range, and then finds
  // the same nearest distance.
  lemma BvhRefinesList(b: Tree, objects: seq<Object>, r: Ray, tMin: real, tMax: real)
    requires AllGood(objects) && Bounded(b) && SameObjects(Objects(b), objects) && Slanted(r)
    ensures var list, tree := Scan(objects, r, tMin, tMax), Find(b, r, tMin, tMax);
            && (tree.Some? ==> list.Some? && tMin <= list.value.t <= tree.value.t <= tMax)
            && (list.Some? && tMin < list.value.t < tMax ==> tree.Some? && tree.value.t == list.value.t)
  {
    hide Good, Bounded, Find, Scan;
    forall i | 0 <= i < |Objects(b)| ensures Good(Objects(b)[i]) {
      var j :| 0 <= j < |objects| && objects[j] == Objects(b)[i];
    }
    ScanIsNearest(objects, r, tMin, tMax);
    var list, tree := Scan(objects, r, tMin, tMax), Find(b, r, tMin, tMax);
    if tree.Some? {
      var i := FindIsSound(b, r, tMin, tMax);
      var j :| 0 <= j < |objects| && objects[j] == Objects(b)[i];
      assert list.Some?;
      var k :| 0 <= k < |objects| && objects[k].hit(r, tMin, tMax) == list;
      GoodAnswers(objects[k], r, tMin, tMax);
    }
    if list.Some? && tMin < list.value.t < tMax {
      var k :| 0 <= k < |objects| && objects[k].hit(r, tMin, tMax) == list;
      var i :| 0 <= i < |Objects(b)| && Objects(b)[i] == objects[k];
      FindIsComplete(b, r, tMin, tMax, i);
    }
  }

  lemma GoodAnswers(o: Object, r: Ray, tMin: real, tMax: real)
    requires Good(o) && Slanted(r)
    ensures Answers(o, r, tMin, tMax)
  {
  }

  // Both report no hit, or both one at the same distance.
  predicate Agree(list: Option<Record>, tree: Option<Record>) {
    list.Some? == tree.Some? && (list.Some? ==> list.value.t == tree.value.t)
  }

  // Unless the nearest hit is at an end of the range, tree and list agree.
  lemma BvhEqualsList(b: Tree, objects: seq<Object>, r: Ray, tMin: real, tMax: real)
    requires AllGood(objects) && Bounded(b) && SameObjects(Objects(b), objects) && Slanted(r)
    requires Scan(objects, r, tMin, tMax).Some? ==> tMin < Scan(objects, r, tMin, tMax).value.t < tMax
    ensures Agree(Scan(objects, r, tMin, tMax), Find(b, r, tMin, tMax))
  {
    hide Good, Bounded, Find, Scan;
    BvhRefinesList(b, objects, r, tMin, tMax);
  }

  /* ----- the ends of the range ----- */

  // The slab test lets the ray into every box above the i-th object.
  predicate Open(b: Tree, i: nat, r: Ray, tMin: real, tMax: real)
    requires Slanted(r) && i < |Objects(b)|
  {
    match b
    case Leaf(_) => true
    case Node(left, right, box) =>
      HitsBox(box, r, tMin, tMax) &&
      if i < |Objects(left)| then Open(left, i, r, tMin, tMax)
      else Open(right, i - |Objects(left)|, r, tMin, tMax)
  }

  // The i-th object is hit and nothing on the way shuts the ray out.
  predicate OpenHit(b: Tree, i: nat, r: Ray, tMin: real, tMax: real)
    requires Slanted(r) && i < |Objects(b)|
  {
    Objects(b)[i].hit(r, tMin, tMax).Some? && Open(b, i, r, tMin, tMax)
  }

  // For any range, ends included: the hierarchy reports a hit exactly when some object
  // that is hit has only boxes above it that let the ray in.
  lemma {:induction false} FindsExactlyOpenHits(b: Tree, r: Ray, tMin: real, tMax: real)
    requires AllGood(Objects(b)) && Slanted(r)
    ensures Find(b, r, tMin, tMax).Some? <==> AnyOpenHit(b, r, tMin, tMax)
  {
    hide HitsBox, Good;
    match b
    case Leaf(o) =>
      assert OpenHit(b, 0, r, tMin, tMax) <==> Find(b, r, tMin, tMax).Some?;
    case Node(left, right, box) =>
      GoodChildren(b);
      FindsExactlyOpenHits(left, r, tMin, tMax);
      FindsExactlyOpenHits(right, r, tMin, tMax);
      OpenInChildren(b, r, tMin, tMax);
      var l := Find(left, r, tMin, tMax);
      assert l.None? ==>
               Find(b, r, tMin, tMax).Some? == (HitsBox(box, r, tMin, tMax) && Find(right, r, tMin, tMax).Some?);
  }

  lemma OpenLeft(b: Tree, i: nat, r: Ray, tMin: real, tMax: real)
    requires b.Node? && Slanted(r) && i < |Objects(b.left)|
    ensures OpenHit(b, i, r, tMin, tMax) <==> HitsBox(b.box, r, tMin, tMax) && OpenHit(b.left, i, r, tMin, tMax)
  {
    hide HitsBox;
    assert Objects(b)[i] == Objects(b.left)[i];
  }

  lemma OpenRight(b: Tree, i: nat, r: Ray, tMin: real, tMax: real)
    requires b.Node? && Slanted(r) && |Objects(b.left)| <= i < |Objects(b)|
    ensures OpenHit(b, i, r, tMin, tMax) <==>
            HitsBox(b.box, r, tMin, tMax) && OpenHit(b.right, i - |Objects(b.left)|, r, tMin, tMax)
  {
    hide HitsBox;
    assert Objects(b)[i] == Objects(b.right)[i - |Objects(b.left)|];
  }

  ghost predicate AnyOpenHit(b: Tree, r: Ray, tMin: real, tMax: real)
    requires Slanted(r)
  {
    exists i :: 0 <= i < |Objects(b)| && OpenHit(b, i, r, tMin, tMax)
  }

  lemma OpenInChildren(b: Tree, r: Ray, tMin: real, tMax: real)
    requires b.Node? && Slanted(r)
    ensures AnyOpenHit(b, r, tMin, tMax) <==>
            HitsBox(b.box, r, tMin, tMax) && (AnyOpenHit(b.left, r, tMin, tMax) || AnyOpenHit(b.right, r, tMin, tMax))
  {
    hide HitsBox, Open, OpenHit;
    var n := |Objects(b.left)|;
    assert |Objects(b)| == n + |Objects(b.right)|;
    if i :| 0 <= i < |Objects(b)| && OpenHit(b, i, r, tMin, tMax) {
      if i < n { OpenLeft(b, i, r, tMin, tMax); } else { OpenRight(b, i, r, tMin, tMax); }
    }
    if i :| 0 <= i < n && OpenHit(b.left, i, r, tMin, tMax) { OpenLeft(b, i, r, tMin, tMax); }
    if i :| 0 <= i < |Objects(b.right)| && OpenHit(b.right, i, r, tMin, tMax) { OpenRight(b, n + i, r, tMin, tMax); }
  }

  // When the list reports a hit beyond the start of the range, the hierarchy agrees
  // exactly when some object that is hit is open. (Strictly before the end there always
  // is one.)
  lemma AgreesExactlyWhenOpen(b: Tree, objects: seq<Object>, r: Ray, tMin: real, tMax: real)
    requires AllGood(objects) && Bounded(b) && SameObjects(Objects(b), objects) && Slanted(r)
    requires Scan(objects, r, tMin, tMax).Some? && tMin < Scan(objects, r, tMin, tMax).value.t
    ensures var list, tree := Scan(objects, r, tMin, tMax), Find(b, r, tMin, tMax);
            tree.Some? && tree.value.t == list.value.t <==> AnyOpenHit(b, r, tMin, tMax)
  {
    hide Good, Bounded, Find, Scan, AnyOpenHit;
    SameAreGood(Objects(b), objects);
    BvhRefinesList(b, objects, r, tMin, tMax);
    FindsExactlyOpenHits(b, r, tMin, tMax);
  }

  lemma SameAreGood(a: seq<Object>, objects: seq<Object>)
    requires AllGood(objects) && SameObjects(a, objects)
    ensures AllGood(a)
  {
    hide Good;
    forall i | 0 <= i < |a| ensures Good(a[i]) {
      var j :| 0 <= j < |objects| && objects[j] == a[i];
    }
  }

  // The search reaches the i-th object, its range shrunk by what it has found so far.
  predicate Reached(b: Tree, i: nat, r: Ray, tMin: real, tMax: real)
    requires Slanted(r) && i < |Objects(b)|
  {
    match b
    case Leaf(_) => true
    case Node(left, right, box) =>
      var l := Find(left, r, tMin, tMax);
      HitsBox(box, r, tMin, tMax) &&
      if i < |Objects(left)| then Reached(left, i, r, tMin, tMax)
      else Reached(right, i - |Objects(left)|, r, tMin, if l.Some? then l.value.t else tMax)
  }

  lemma {:induction false} ReachedIsFound(b: Tree, r: Ray, tMin: real, tMax: real, i: nat)
    requires AllGood(Objects(b)) && Slanted(r) && i < |Objects(b)| && Reached(b, i, r, tMin, tMax)
    requires Objects(b)[i].hit(r, tMin, tMax).Some?
    ensures Find(b, r, tMin, tMax).Some?
    ensures Find(b, r, tMin, tMax).value.t <= Objects(b)[i].hit(r, tMin, tMax).value.t
  {
    hide HitsBox;
    var o := Objects(b)[i];
    assert Good(o) && Answers(o, r, tMin, tMax);
    match b
    case Leaf(_) =>
    case Node(left, right, box) =>
      GoodChildren(b);
      var l := Find(left, r, tMin, tMax);
      var t := o.hit(r, tMin, tMax).value.t;
      if i < |Objects(left)| {
        ReachedIsFound(left, r, tMin, tMax, i);
      } else if l.None? || t <= l.value.t {
        var tRight := if l.Some? then l.value.t else tMax;
        if l.Some? { var j := FindIsSound(left, r, tMin, tMax); }
        ReachedIsFound(right, r, tMin, tRight, i - |Objects(left)|);
      }
      if l.Some? && Find(right, r, tMin, l.value.t).Some? {
        var j := FindIsSound(right, r, tMin, l.value.t);
      }
  }

  // The object whose answer is reported has been reached.
  lemma {:induction false} FoundIsReached(b: Tree, r: Ray, tMin: real, tMax: real) returns (i: nat)
    requires AllGood(Objects(b)) && Slanted(r) && Find(b, r, tMin, tMax).Some?
    ensures i < |Objects(b)| && Reached(b, i, r, tMin, tMax)
    ensures Objects(b)[i].hit(r, tMin, tMax) == Find(b, r, tMin, tMax)
  {
    hide HitsBox, Answers;
    match b
    case Leaf(o) =>
      i := 0;
    case Node(left, right, box) =>
      GoodChildren(b);
      var l := Find(left, r, tMin, tMax);
      var tRight := if l.Some? then l.value.t else tMax;
      if Find(right, r, tMin, tRight).Some? {
        if l.Some? { var k := FindIsSound(left, r, tMin, tMax); }
        var j := FoundIsReached(right, r, tMin, tRight);
        i := |Objects(left)| + j;
        assert Good(Objects(right)[j]) && Answers(Objects(right)[j], r, tMin, tMax);
        AnswerRange(Objects(right)[j], r, tMin, tMax, tRight);
      } else {
        i := FoundIsReached(left, r, tMin, tMax);
      }
  }

  // For any range, ends included: tree and list agree exactly when the search reaches an
  // object that is hit at the distance the list reports, if it reports one.
  lemma AgreesExactlyWhenReached(b: Tree, objects: seq<Object>, r: Ray, tMin: real, tMax: real)
    requires AllGood(objects) && Bounded(b) && SameObjects(Objects(b), objects) && Slanted(r)
    ensures var list := Scan(objects, r, tMin, tMax);
            Agree(list, Find(b, r, tMin, tMax)) <==>
            (list.Some? ==> exists i :: 0 <= i < |Objects(b)| && ReachesHit(b, i, r, tMin, tMax, list.value.t))
  {
    hide Good, Bounded, Find, Scan, Reached;
    SameAreGood(Objects(b), objects);
    BvhRefinesList(b, objects, r, tMin, tMax);
    var list, tree := Scan(objects, r, tMin, tMax), Find(b, r, tMin, tMax);
    if list.Some? {
      if tree.Some? && tree.value.t == list.value.t {
        var i := FoundIsReached(b, r, tMin, tMax);
        assert ReachesHit(b, i, r, tMin, tMax, list.value.t);
      }
      if i :| 0 <= i < |Objects(b)| && ReachesHit(b, i, r, tMin, tMax, list.value.t) {
        ReachedIsFound(b, r, tMin, tMax, i);
      }
    }
  }

  // The search reaches the i-th object, and it is hit at t.
  predicate ReachesHit(b: Tree, i: nat, r: Ray, tMin: real, tMax: real, t: real)
    requires Slanted(r) && i < |Objects(b)|
  {
    Reached(b, i, r, tMin, tMax) && Objects(b)[i].hit(r, tMin, tMax).Some? &&
    Objects(b)[i].hit(r, tMin, tMax).value.t == t
  }

  /* ----- objects met somewhere in the range ----- */

  // The ray meets the object at t: in every range around t the box lets it in and the
  // object answers, no later than t.
  ghost predicate MetAt(o: Object, r: Ray, t: real)
    requires Slanted(r)
  {
    forall tMin, tMax :: tMin < t < tMax ==>
      HitsBox(o.box, r, tMin, tMax) && o.hit(r, tMin, tMax).Some? && o.hit(r, tMin, tMax).value.t <= t
  }

  lemma {:induction false} MetIsFound(b: Tree, r: Ray, tMin: real, tMax: real, i: nat, t: real)
    requires AllGood(Objects(b)) && Bounded(b) && Slanted(r) && i < |Objects(b)|
    requires MetAt(Objects(b)[i], r, t) && tMin < t < tMax
    ensures Find(b, r, tMin, tMax).Some? && Find(b, r, tMin, tMax).value.t <= t
  {
    hide HitsBox, Contains, Good, MetAt;
    var o := Objects(b)[i];
    MetThere(o, r, t, tMin, tMax);
    match b
    case Leaf(_) =>
    case Node(left, right, box) =>
      GoodChildren(b);
      GoodBox(o);
      HitsBoxMonotone(box, o.box, r, tMin, tMax, tMax);
      var l := Find(left, r, tMin, tMax);
      if i < |Objects(left)| {
        MetIsFound(left, r, tMin, tMax, i, t);
      } else if l.None? || t < l.value.t {
        if l.Some? { var j := FindIsSound(left, r, tMin, tMax); }
        MetIsFound(right, r, tMin, if l.Some? then l.value.t else tMax, i - |Objects(left)|, t);
      }
      if l.Some? && Find(right, r, tMin, l.value.t).Some? {
        var j := FindIsSound(right, r, tMin, l.value.t);
      }
  }

  lemma MetThere(o: Object, r: Ray, t: real, tMin: real, tMax: real)
    requires Slanted(r) && MetAt(o, r, t) && tMin < t < tMax
    ensures HitsBox(o.box, r, tMin, tMax) && o.hit(r, tMin, tMax).Some? && o.hit(r, tMin, tMax).value.t <= t
  {
  }

  lemma GoodBox(o: Object)
    requires Good(o)
    ensures ProperBox(o.box)
  {
  }

  /* ----- construction ----- */

  // box_compare
  function BoxKey(o: Object, axis: int): real {
    Along(o.box.min, axis)
  }

  predicate SortedAlong(objects: seq<Object>, axis: int) {
    forall i, j :: 0 <= i < j < |objects| ==> BoxKey(objects[i], axis) <= BoxKey(objects[j], axis)
  }

  // Stands for std::sort with the comparator of an axis: any function that returns
  // a permutation of its argument in the order of the keys.
  ghost predicate IsSort(sort: (seq<Object>, int) -> seq<Object>) {
    forall objects, axis :: IsAxis(axis) ==>
      SortedAlong(sort(objects, axis), axis) && multiset(sort(objects, axis)) == multiset(objects)
  }

  lemma SortedIs(sort: (seq<Object>, int) -> seq<Object>, objects: seq<Object>, axis: int)
    requires IsSort(sort) && IsAxis(axis)
    ensures SortedAlong(sort(objects, axis), axis) && multiset(sort(objects, axis)) == multiset(objects)
  {
  }

  // A tree over exactly the given objects; a single one is stored on both sides.
  ghost predicate Holds(b: Tree, objects: seq<Object>) {
    SameObjects(Objects(b), objects) && Bounded(b)
  }

  lemma JoinHolds(left: Tree, right: Tree, a: seq<Object>, c: seq<Object>)
    requires Holds(left, a) && Holds(right, c) && AllProper(left) && AllProper(right)
    ensures var b := Node(left, right, Surrounding(BoxOf(left), BoxOf(right))); Holds(b, a + c) && AllProper(b)
  {
    var box := Surrounding(BoxOf(left), BoxOf(right));
    var b := Node(left, right, box);
    SurroundingContains(BoxOf(left), BoxOf(right));
    forall i | 0 <= i < |Objects(b)|
      ensures Contains(box, Objects(b)[i].box)
    {
      if i < |Objects(left)| {
        assert Objects(b)[i] == Objects(left)[i];
      } else {
        assert Objects(b)[i] == Objects(right)[i - |Objects(left)|];
      }
    }
  }

  // Boxes of nodes and objects are proper.
  ghost predicate AllProper(b: Tree) {
    ProperBox(BoxOf(b)) &&
    (b.Node? ==> AllProper(b.left) && AllProper(b.right))
  }

  // Each node has an axis along which nothing on its left starts after anything on
  // its right.
  ghost predicate Ordered(b: Tree) {
    b.Node? ==>
      Ordered(b.left) && Ordered(b.right) &&
      exists axis :: IsAxis(axis) && Before(Objects(b.left), Objects(b.right), axis)
  }

  ghost predicate Before(a: seq<Object>, c: seq<Object>, axis: int) {
    forall i, j :: 0 <= i < |a| && 0 <= j < |c| ==> StartsBefore(a[i].box, c[j].box, axis)
  }

  predicate StartsBefore(a: Aabb, c: Aabb, axis: int) {
    && (axis == 0 ==> a.min.x <= c.min.x)
    && (axis == 1 ==> a.min.y <= c.min.y)
    && (axis == 2 ==> a.min.z <= c.min.z)
  }

  // No smaller box than that of a node contains the boxes of all objects below it.
  ghost predicate Tight(b: Tree) {
    b.Node? ==>
      Tight(b.left) && Tight(b.right) &&
      forall c :: (forall i :: 0 <= i < |Objects(b)| ==> Contains(c, Objects(b)[i].box)) ==> Contains(c, b.box)
  }

  lemma JoinTight(left: Tree, right: Tree)
    requires Tight(left) && Tight(right) && ProperBox(BoxOf(left)) && ProperBox(BoxOf(right))
    ensures Tight(Node(left, right, Surrounding(BoxOf(left), BoxOf(right))))
  {
    hide Contains, Surrounding;
    var b := Node(left, right, Surrounding(BoxOf(left), BoxOf(right)));
    SurroundingContains(BoxOf(left), BoxOf(right));
    forall c | forall i :: 0 <= i < |Objects(b)| ==> Contains(c, Objects(b)[i].box)
      ensures Contains(c, b.box)
    {
      forall i | 0 <= i < |Objects(left)| ensures Contains(c, Objects(left)[i].box) {
        assert Objects(b)[i] == Objects(left)[i];
      }
      forall i | 0 <= i < |Objects(right)| ensures Contains(c, Objects(right)[i].box) {
        assert Objects(b)[|Objects(left)| + i] == Objects(right)[i];
      }
      if left.Leaf? { assert Objects(left)[0] == left.item; }
      if right.Leaf? { assert Objects(right)[0] == right.item; }
      assert Contains(c, BoxOf(left)) && Contains(c, BoxOf(right));
    }
  }

  function Height(b: Tree): nat {
    match b
    case Leaf(_) => 0
    case Node(left, right, _) => 1 + if Height(left) >= Height(right) then Height(left) else Height(right)
  }

  // The height is at most the binary logarithm of the number of objects, rounded up,
  // and at least 1.
  ghost predicate Balanced(b: Tree, span: nat) {
    forall k: nat :: k >= 1 && span <= Words.Pow2(k) ==> Height(b) <= k
  }

  lemma HalvesBalanced(left: Tree, right: Tree, box: Aabb, span: nat)
    requires span > 2 && Balanced(left, span / 2) && Balanced(right, span - span / 2)
    ensures Balanced(Node(left, right, box), span)
  {
    forall k: nat | k >= 1 && span <= Words.Pow2(k)
      ensures Height(Node(left, right, box)) <= k
    {
      assert Words.Pow2(1) == 2;
      assert Words.Pow2(k) == 2 * Words.Pow2(k - 1);
    }
  }

  lemma HalvesInOrder(left: Tree, right: Tree, a: seq<Object>, c: seq<Object>, axis: int)
    requires SameObjects(Objects(left), a) && SameObjects(Objects(right), c) && SortedAlong(a + c, axis)
    ensures Before(Objects(left), Objects(right), axis)
  {
    forall i, j | 0 <= i < |Objects(left)| && 0 <= j < |Objects(right)|
      ensures StartsBefore(Objects(left)[i].box, Objects(right)[j].box, axis)
    {
      var k :| 0 <= k < |a| && a[k] == Objects(left)[i];
      var m :| 0 <= m < |c| && c[m] == Objects(right)[j];
      assert (a + c)[k] == a[k] && (a + c)[|a| + m] == c[m];
    }
  }

  // The constructor on objects[start..end], for any axis drawn at each node and any
  // order std::sort leaves equal keys in.
  method Build(source: seq<Object>, start: nat, end: nat, sort: (seq<Object>, int) -> seq<Object>) returns (b: Tree)
    requires start < end <= |source| && IsSort(sort)
    requires forall i :: start <= i < end ==> ProperBox(source[i].box)
    ensures Holds(b, source[start..end]) && AllProper(b) && Ordered(b) && Tight(b) && b.Node?
    ensures Balanced(b, end - start)
    decreases end - start
  {
    hide Balanced, Bounded, SortedAlong, Before, BoxKey, Holds;
    hide AllProper, Ordered, Tight, ProperBox, IsSort, Objects, Surrounding;
    var objects := source;
    var axis: int :| IsAxis(axis);
    var span := end - start;
    var left, right;
    if span == 1 {
      left, right := Leaf(objects[start]), Leaf(objects[start]);
      assert source[start..end] == [objects[start]];
      JoinPair(left, right, source[start..end], axis);
      PairTight(left, right);
      PairBalanced(left, right, 1);
    } else if span == 2 {
      assert source[start..end] == [objects[start], objects[start + 1]];
      if BoxKey(objects[start], axis) < BoxKey(objects[start + 1], axis) {
        left, right := Leaf(objects[start]), Leaf(objects[start + 1]);
      } else {
        left, right := Leaf(objects[start + 1]), Leaf(objects[start]);
      }
      JoinPair(left, right, source[start..end], axis);
      PairTight(left, right);
      PairBalanced(left, right, 2);
    } else {
      var sorted := sort(objects[start..end], axis);
      SortedIs(sort, objects[start..end], axis);
      SortedRange(source[start..end], sorted);
      objects := objects[..start] + sorted + objects[end..];
      forall i | start <= i < end ensures ProperBox(objects[i].box) {
        assert objects[i] == sorted[i - start];
      }
      var mid := start + span / 2;
      left := Build(objects, start, mid, sort);
      right := Build(objects, mid, end, sort);
      assert objects[start..mid] == sorted[..span / 2] && objects[mid..end] == sorted[span / 2..];
      JoinHalves(left, right, source[start..end], sorted, span / 2, axis);
      HalvesTight(left, right);
      HalvesBalanced(left, right, Surrounding(BoxOf(left), BoxOf(right)), span);
    }
    b := Node(left, right, Surrounding(BoxOf(left), BoxOf(right)));
  }

  lemma PairBalanced(left: Tree, right: Tree, span: nat)
    requires left.Leaf? && right.Leaf?
    ensures Balanced(Node(left, right, Surrounding(BoxOf(left), BoxOf(right))), span)
  {
  }

  lemma PairTight(left: Tree, right: Tree)
    requires left.Leaf? && right.Leaf? && ProperBox(left.item.box) && ProperBox(right.item.box)
    ensures Tight(Node(left, right, Surrounding(BoxOf(left), BoxOf(right))))
  {
    JoinTight(left, right);
  }

  lemma HalvesTight(left: Tree, right: Tree)
    requires Tight(left) && Tight(right) && AllProper(left) && AllProper(right)
    ensures Tight(Node(left, right, Surrounding(BoxOf(left), BoxOf(right))))
  {
    JoinTight(left, right);
  }

  lemma JoinPair(left: Tree, right: Tree, range: seq<Object>, axis: int)
    requires left.Leaf? && right.Leaf? && ProperBox(left.item.box) && ProperBox(right.item.box)
    requires (range == [left.item] && left == right) ||
             range == [left.item, right.item] || range == [right.item, left.item]
    requires IsAxis(axis) && BoxKey(left.item, axis) <= BoxKey(right.item, axis)
    ensures var b := Node(left, right, Surrounding(BoxOf(left), BoxOf(right)));
            Holds(b, range) && AllProper(b) && Ordered(b)
  {
    JoinHolds(left, right, [left.item], [right.item]);
    assert Before(Objects(left), Objects(right), axis);
  }

  lemma JoinHalves(left: Tree, right: Tree, range: seq<Object>, sorted: seq<Object>, half: nat, axis: int)
    requires half <= |sorted| && multiset(sorted) == multiset(range) && SortedAlong(sorted, axis) && IsAxis(axis)
    requires Holds(left, sorted[..half]) && AllProper(left) && Ordered(left)
    requires Holds(right, sorted[half..]) && AllProper(right) && Ordered(right)
    ensures var b := Node(left, right, Surrounding(BoxOf(left), BoxOf(right)));
            Holds(b, range) && AllProper(b) && Ordered(b)
  {
    hide Bounded, SortedAlong, Before, AllProper;
    SameMembers(sorted, range);
    assert sorted[..half] + sorted[half..] == sorted;
    JoinHolds(left, right, sorted[..half], sorted[half..]);
    HalvesInOrder(left, right, sorted[..half], sorted[half..], axis);
    var b := Node(left, right, Surrounding(BoxOf(left), BoxOf(right)));
    SameTransitive(Objects(b), sorted, range);
  }

  lemma SameTransitive(a: seq<Object>, b: seq<Object>, c: seq<Object>)
    requires SameObjects(a, b) && SameObjects(b, c)
    ensures SameObjects(a, c)
  {
  }

  lemma SortedRange(range: seq<Object>, sorted: seq<Object>)
    requires multiset(sorted) == multiset(range) && forall i :: 0 <= i < |range| ==> ProperBox(range[i].box)
    ensures |sorted| == |range| && forall i :: 0 <= i < |sorted| ==> ProperBox(sorted[i].box)
  {
    SameMembers(sorted, range);
    forall i | 0 <= i < |sorted| ensures ProperBox(sorted[i].box) {
      var j :| 0 <= j < |range| && range[j] == sorted[i];
    }
  }

  lemma SameMembers(a: seq<Object>, c: seq<Object>)
    requires multiset(a) == multiset(c)
    ensures SameObjects(a, c) && |a| == |c|
  {
    assert |multiset(a)| == |multiset(c)|;
    forall i | 0 <= i < |a| ensures a[i] in c {
      assert a[i] in multiset(a);
    }
    forall i | 0 <= i < |c| ensures c[i] in a {
      assert c[i] in multiset(c);
    }
  }
}
