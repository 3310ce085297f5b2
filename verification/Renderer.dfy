// Images, tile rendering on remote functions, and reassembly of the tile images in
// whatever order the invocations finish.
module Renderer {
  import opened Wrappers
  import opened Tiles
  import opened Dispatching

  // The value of a tile image as a remote function returns it, row by row.
  datatype Picture<C> = Picture(width: nat, height: nat, pixels: seq<C>)

  function Index(width: nat, x: nat, y: nat): nat {
    y * width + x
  }

  lemma IndexInRange(width: nat, height: nat, x: nat, y: nat)
    requires x < width && y < height
    ensures Index(width, x, y) < width * height
  {
    NextMultiple(y, height, width);
  }

  lemma IndexSame(width: nat, x: nat, y: nat, x': nat, y': nat)
    requires x < width && x' < width
    ensures Index(width, x, y) == Index(width, x', y') <==> x == x' && y == y'
  {
    if y < y' {
      NextMultiple(y, y', width);
    } else if y' < y {
      NextMultiple(y', y, width);
    }
  }

  predicate WellSized<C>(p: Picture<C>) {
    |p.pixels| == p.width * p.height
  }

  function At<C>(p: Picture<C>, x: nat, y: nat): C
    requires WellSized(p) && x < p.width && y < p.height
  {
    IndexInRange(p.width, p.height, x, y);
    p.pixels[Index(p.width, x, y)]
  }

  // Row by row.
  lemma AtIs<C>(p: Picture<C>, x: nat, y: nat)
    requires WellSized(p) && x < p.width && y < p.height
    ensures y * p.width + x < |p.pixels| && At(p, x, y) == p.pixels[y * p.width + x]
  {
    IndexInRange(p.width, p.height, x, y);
  }

  // `after` is `before` with a picture copied to the given offset, as far as it lies
  // within the image.
  ghost predicate Inserted<C>(before: Picture<C>, after: Picture<C>, offsetX: nat, offsetY: nat, p: Picture<C>)
    requires WellSized(before) && WellSized(after) && WellSized(p)
  {
    && after.width == before.width && after.height == before.height
    && forall x: nat, y: nat :: x < after.width && y < after.height ==>
         At(after, x, y) ==
         if offsetX <= x < offsetX + p.width && offsetY <= y < offsetY + p.height
         then At(p, x - offsetX, y - offsetY) else At(before, x, y)
  }

  lemma SetOne<C>(p: Picture<C>, x: nat, y: nat, c: C)
    requires WellSized(p) && x < p.width && y < p.height
    ensures Index(p.width, x, y) < |p.pixels|
    ensures var q := p.(pixels := p.pixels[Index(p.width, x, y) := c]);
            WellSized(q) && forall px: nat, py: nat :: px < q.width && py < q.height ==>
              At(q, px, py) == if px == x && py == y then c else At(p, px, py)
  {
    IndexInRange(p.width, p.height, x, y);
    hide Index;
    var q := p.(pixels := p.pixels[Index(p.width, x, y) := c]);
    forall px: nat, py: nat | px < q.width && py < q.height
      ensures At(q, px, py) == if px == x && py == y then c else At(p, px, py)
    {
      IndexInRange(p.width, p.height, px, py);
      IndexSame(p.width, x, y, px, py);
    }
  }

  class Image<C> {
    const width: nat
    const height: nat
    const data: array<C>

    ghost predicate Valid() {
      data.Length == width * height
    }

    ghost function Value(): (p: Picture<C>)
      requires Valid()
      reads data
      ensures WellSized(p) && p.width == width && p.height == height
    {
      Picture(width, height, data[..])
    }

    constructor (width: nat, height: nat, blank: C)
      ensures Valid() && fresh(data) && this.width == width && this.height == height
    {
      this.width, this.height := width, height;
      data := new C[width * height](_ => blank);
    }

    // Assignment through operator().
    method Set(x: nat, y: nat, c: C)
      requires Valid() && x < width && y < height
      modifies data
      ensures forall px: nat, py: nat :: px < width && py < height ==>
                At(Value(), px, py) == if px == x && py == y then c else At(old(Value()), px, py)
    {
      hide Index, WellSized, At;
      SetOne(Value(), x, y, c);
      data[Index(width, x, y)] := c;
      assert Value() == old(Value()).(pixels := old(Value()).pixels[Index(width, x, y) := c]);
    }

    method Insert(offsetX: nat, offsetY: nat, other: Picture<C>)
      requires Valid() && WellSized(other)
      modifies data
      ensures Inserted(old(Value()), Value(), offsetX, offsetY, other)
    {
      hide Index, WellSized, At;
      var xMax := if width <= offsetX + other.width then width else offsetX + other.width;
      var yMax := if height <= offsetY + other.height then height else offsetY + other.height;
      var y := offsetY;
      while y < yMax
        invariant offsetY <= y && (y <= yMax || y == offsetY)
        invariant forall px: nat, py: nat :: px < width && py < height ==>
                    At(Value(), px, py) ==
                    if offsetX <= px < xMax && offsetY <= py < y
                    then At(other, px - offsetX, py - offsetY) else At(old(Value()), px, py)
      {
        var x := offsetX;
        while x < xMax
          invariant offsetX <= x && (x <= xMax || x == offsetX)
          invariant forall px: nat, py: nat :: px < width && py < height ==>
                      At(Value(), px, py) ==
                      if offsetX <= px < xMax && (offsetY <= py < y || (py == y && px < x))
                      then At(other, px - offsetX, py - offsetY) else At(old(Value()), px, py)
        {
          Set(x, y, At(other, x - offsetX, y - offsetY));
          x := x + 1;
        }
        y := y + 1;
      }
    }
  }

  /* ----- one tile ----- */

  // The picture of a tile: its own value at each pixel.
  ghost predicate Rendered<C>(p: Picture<C>, t: Tile, render: (Tile, int, int) -> C) {
    && p.width == t.width && p.height == t.height && WellSized(p)
    && forall dx: nat, dy: nat :: dx < p.width && dy < p.height ==> At(p, dx, dy) == render(t, t.x + dx, t.y + dy)
  }

  // The remote function; `render` stands for the summed samples of a pixel.
  method RenderTile<C>(t: Tile, render: (Tile, int, int) -> C, blank: C) returns (p: Picture<C>)
    requires t.width >= 0 && t.height >= 0
    ensures Rendered(p, t, render)
  {
    hide Index;
    var img := new Image<C>(t.width, t.height, blank);
    for x := t.x to t.x + t.width
      invariant forall dx: nat, dy: nat :: dx < img.width && dy < img.height && dx < x - t.x ==>
                  At(img.Value(), dx, dy) == render(t, t.x + dx, t.y + dy)
    {
      for y := t.y to t.y + t.height
        invariant forall dx: nat, dy: nat ::
                    dx < img.width && dy < img.height && (dx < x - t.x || (dx == x - t.x && dy < y - t.y)) ==>
                    At(img.Value(), dx, dy) == render(t, t.x + dx, t.y + dy)
      {
        img.Set(x - t.x, y - t.y, render(t, x, y));
      }
    }
    p := Picture(img.width, img.height, img.data[..]);
    forall dx: nat, dy: nat | dx < p.width && dy < p.height
      ensures At(p, dx, dy) == render(t, t.x + dx, t.y + dy)
    {
      IndexInRange(p.width, p.height, dx, dy);
      assert At(p, dx, dy) == At(img.Value(), dx, dy);
    }
  }

  /* ----- all tiles over a dispatcher instance ----- */

  // The part of an image covered by a tile shows the tile's own values.
  ghost predicate Shows<C>(image: Picture<C>, t: Tile, render: (Tile, int, int) -> C)
    requires WellSized(image)
  {
    forall x: nat, y: nat :: x < image.width && y < image.height && Inside(t, x, y) ==>
      At(image, x, y) == render(t, x, y)
  }

  ghost predicate Disjoint(t: Tile, u: Tile) {
    forall x, y :: !(Inside(t, x, y) && Inside(u, x, y))
  }

  // Everything an instance still has to hand out is one of the invocations from
  // `first` on.
  ghost predicate OnlyFrom<V>(s: Protocol<V>, first: nat) {
    forall id :: id in s.inFlight || id in s.finished ==> first <= id
  }

  lemma {:induction false} AbsorbOnlyFrom<V>(s: Protocol<V>, replies: seq<Reply>, first: nat)
    requires OnlyFrom(s, first)
    ensures OnlyFrom(Absorb(s, replies), first)
  {
    if replies != [] {
      AbsorbOnlyFrom(s, replies[..|replies| - 1], first);
    }
  }

  // No invocation from `first` on is lost or still waiting for an answer.
  ghost predicate NoneLeft<V>(s: Protocol<V>, first: nat) {
    forall id :: id in s.inFlight || id in s.lost ==> id < first
  }

  ghost predicate AllBefore(returned: seq<nat>, first: nat) {
    forall j :: 0 <= j < |returned| ==> returned[j] < first
  }

  // Invocation first + k computes the picture of tile k.
  ghost predicate Requested<C>(requests: seq<Picture<C>>, first: nat, tiles: seq<Tile>, render: (Tile, int, int) -> C) {
    && |requests| == first + |tiles|
    && forall k :: 0 <= k < |tiles| ==> Rendered(requests[first + k], tiles[k], render)
  }

  lemma ReturnedBefore<V>(instance: Instance<V>)
    requires instance.Valid()
    ensures AllBefore(instance.model.returned, |instance.targets|)
  {
    hide Quiet;
    forall j | 0 <= j < |instance.model.returned| ensures instance.model.returned[j] < |instance.targets| {
      assert instance.model.returned[j] in instance.model.returned;
    }
  }

  lemma NothingPending<V>(s: Protocol<V>, first: nat)
    requires s.inFlight == {} && s.finished == {}
    ensures OnlyFrom(s, first)
  {
  }

  lemma DispatchOnlyFrom<V>(s: Protocol<V>, v: V, first: nat)
    requires OnlyFrom(s, first) && first <= |s.requests|
    ensures OnlyFrom(Step(s, Dispatch(v)), first)
  {
  }

  lemma NothingRequested<C>(requests: seq<Picture<C>>, first: nat, render: (Tile, int, int) -> C)
    requires |requests| == first
    ensures Requested(requests, first, [], render)
  {
  }

  lemma OneMoreRequested<C>(requests: seq<Picture<C>>, first: nat, tiles: seq<Tile>, i: nat, p: Picture<C>,
                            render: (Tile, int, int) -> C)
    requires i < |tiles| && Requested(requests, first, tiles[..i], render) && Rendered(p, tiles[i], render)
    ensures |requests| == first + i && Requested(requests + [p], first, tiles[..i + 1], render)
  {
    hide Rendered;
    assert tiles[..i + 1] == tiles[..i] + [tiles[i]];
  }

  method DispatchTiles<C>(instance: Instance<Picture<C>>, tiles: seq<Tile>, render: (Tile, int, int) -> C, blank: C)
    returns (images: seq<Future<Picture<C>>>, firstId: int)
    requires instance.Valid() && forall k :: 0 <= k < |tiles| ==> tiles[k].width >= 0 && tiles[k].height >= 0
    requires instance.pending == {} && instance.finished == {}
    modifies instance
    ensures instance.Valid() && |images| == |tiles| && instance.targets == old(instance.targets) + images
    ensures forall f :: f in images ==> fresh(f)
    ensures firstId == if tiles == [] then -1 else |old(instance.targets)|
    ensures Requested(instance.model.requests, |old(instance.targets)|, tiles, render)
    ensures OnlyFrom(instance.model, |old(instance.targets)|) && instance.model.returned == old(instance.model.returned)
    ensures AllBefore(instance.model.returned, |old(instance.targets)|)
  {
    hide Instance.Valid, Rendered, OnlyFrom, AllBefore, Requested;
    ReturnedBefore(instance);
    InstancePartitioned(instance);
    NothingPending(instance.model, |instance.targets|);
    NothingRequested(instance.model.requests, |instance.targets|, render);
    images := [];
    firstId := -1;
    for i := 0 to |tiles|
      invariant instance.Valid() && |images| == i && instance.targets == old(instance.targets) + images
      invariant forall f :: f in images ==> fresh(f)
      invariant firstId == if i == 0 then -1 else |old(instance.targets)|
      invariant Requested(instance.model.requests, |old(instance.targets)|, tiles[..i], render)
      invariant OnlyFrom(instance.model, |old(instance.targets)|)
      invariant instance.model.returned == old(instance.model.returned)
    {
      var picture := RenderTile(tiles[i], render, blank);
      var image := new Future<Picture<C>>();
      InstancePartitioned(instance);
      DispatchOnlyFrom(instance.model, picture, |old(instance.targets)|);
      OneMoreRequested(instance.model.requests, |old(instance.targets)|, tiles, i, picture, render);
      var id := instance.DispatchImpl(picture, image);
      images := images + [image];
      if firstId == -1 { firstId := id; }
    }
    assert tiles[..|tiles|] == tiles;
  }

  lemma OtherTile(tiles: seq<Tile>, i: int, j: int, width: nat, height: nat, tileWidth: nat, tileHeight: nat)
    requires ExactCover(tiles, width, height) && 0 <= i < |tiles| && 0 <= j < |tiles| && i != j
    requires Proper(tiles[i], width, height, tileWidth, tileHeight)
    ensures Disjoint(tiles[i], tiles[j])
  {
    forall x, y | Inside(tiles[i], x, y)
      ensures !Inside(tiles[j], x, y)
    {
      assert InOneTile(tiles, x, y);
    }
  }

  // The tiles a list of invocation ids stands for.
  ghost predicate AllShow<C>(image: Picture<C>, tiles: seq<Tile>, ids: seq<nat>, first: nat,
                             render: (Tile, int, int) -> C)
    requires WellSized(image)
  {
    forall k :: 0 <= k < |ids| ==> first <= ids[k] < first + |tiles| && Shows(image, tiles[ids[k] - first], render)
  }

  // Inserting the picture of one more tile makes it show and disturbs no other.
  lemma InsertShows<C>(before: Picture<C>, after: Picture<C>, p: Picture<C>, tiles: seq<Tile>, ids: seq<nat>, id: nat,
                       first: nat, render: (Tile, int, int) -> C)
    requires WellSized(before) && WellSized(after) && AllShow(before, tiles, ids, first, render) && id !in ids
    requires first <= id < first + |tiles| && Rendered(p, tiles[id - first], render)
    requires var t := tiles[id - first]; 0 <= t.x && 0 <= t.y && Inserted(before, after, t.x, t.y, p)
    requires forall j :: 0 <= j < |tiles| && j != id - first ==> Disjoint(tiles[id - first], tiles[j])
    ensures AllShow(after, tiles, ids + [id], first, render)
  {
    hide At, WellSized;
    var t := tiles[id - first];
    assert Shows(after, t, render);
    forall k | 0 <= k < |ids|
      ensures Shows(after, tiles[ids[k] - first], render)
    {
      var u := tiles[ids[k] - first];
      assert Shows(before, u, render) && Disjoint(t, u);
    }
  }

  method Place<C>(target: Image<C>, t: Tile, p: Picture<C>, ghost tiles: seq<Tile>, ghost ids: seq<nat>, ghost id: nat,
                  ghost first: nat, ghost render: (Tile, int, int) -> C)
    requires target.Valid() && AllShow(target.Value(), tiles, ids, first, render) && id !in ids
    requires first <= id < first + |tiles| && t == tiles[id - first] && Rendered(p, t, render) && 0 <= t.x && 0 <= t.y
    requires forall j :: 0 <= j < |tiles| && j != id - first ==> Disjoint(t, tiles[j])
    modifies target.data
    ensures AllShow(target.Value(), tiles, ids + [id], first, render)
  {
    hide AllShow, Disjoint, Inserted, WellSized;
    target.Insert(t.x, t.y, p);
    InsertShows(old(target.Value()), target.Value(), p, tiles, ids, id, first, render);
  }

  // The ids handed out since `from` are those of all tiles.
  lemma AllCollected(returned: seq<nat>, from: nat, first: nat, count: nat, k: nat)
    requires NoDup(returned) && |returned| == from + count && k < count
    requires forall j :: from <= j < |returned| ==> first <= returned[j] < first + count
    ensures first + k in returned[from..]
  {
    var shifted: seq<nat> := seq(count, j requires 0 <= j < count => returned[from + j] - first);
    NoDupLength(shifted, count);
    assert k in shifted;
    var j :| 0 <= j < count && shifted[j] == k;
    assert returned[from..][j] == first + k;
  }

  // The invocation handed out is one of ours, not handed out before, and its image
  // has been filled with its own picture.
  lemma HandedOut<V>(s: Protocol<V>, replies: seq<Reply>, id: nat, first: nat)
    requires Partitioned(s) && OnlyFrom(s, first) && Enabled(Absorb(s, replies), HandOut(id))
    ensures first <= id < |s.requests| && id !in s.returned
    ensures var t := Step(Absorb(s, replies), HandOut(id));
            OnlyFrom(t, first) && t.returned == s.returned + [id] && t.requests == s.requests
  {
    hide Absorb;
    StillInFlight(s, replies, 0);
    AbsorbOnlyFrom(s, replies, first);
  }

  lemma ImageFilled<V>(instance: Instance<V>, id: nat)
    requires instance.Valid() && id in instance.model.returned
    ensures id < |instance.targets| && id < |instance.model.requests|
    ensures instance.targets[id].value == Some(instance.model.requests[id])
  {
  }

  lemma InstancePartitioned<V>(instance: Instance<V>)
    requires instance.Valid()
    ensures Partitioned(instance.model)
    ensures |instance.targets| == |instance.model.requests| == instance.started
    ensures instance.pending == instance.model.inFlight && instance.finished == instance.model.finished
    ensures instance.clock <= |instance.replies|
  {
  }

  lemma PictureOf<C>(requests: seq<Picture<C>>, first: nat, tiles: seq<Tile>, render: (Tile, int, int) -> C, id: nat,
                     width: nat, height: nat, tileWidth: nat, tileHeight: nat)
    requires Requested(requests, first, tiles, render) && first <= id < |requests|
    requires ExactCover(tiles, width, height)
    requires forall i :: 0 <= i < |tiles| ==> Proper(tiles[i], width, height, tileWidth, tileHeight)
    ensures id - first < |tiles| && Rendered(requests[id], tiles[id - first], render) && WellSized(requests[id])
    ensures 0 <= tiles[id - first].x && 0 <= tiles[id - first].y
    ensures forall j :: 0 <= j < |tiles| && j != id - first ==> Disjoint(tiles[id - first], tiles[j])
  {
    hide ExactCover, Disjoint;
    assert requests[first + (id - first)] == requests[id];
    assert Proper(tiles[id - first], width, height, tileWidth, tileHeight);
    forall j | 0 <= j < |tiles| && j != id - first
      ensures Disjoint(tiles[id - first], tiles[j])
    {
      OtherTile(tiles, id - first, j, width, height, tileWidth, tileHeight);
    }
  }

  lemma Conclude<C>(instance: Instance<Picture<C>>, tiles: seq<Tile>, from: nat, first: nat, target: Image<C>,
                    render: (Tile, int, int) -> C)
    requires instance.Valid() && target.Valid() && |instance.model.requests| == first + |tiles|
    requires OnlyFrom(instance.model, first) && |instance.model.returned| == from + |tiles|
    requires AllShow(target.Value(), tiles, instance.model.returned[from..], first, render)
    ensures forall i :: 0 <= i < |tiles| ==> Shows(target.Value(), tiles[i], render)
    ensures instance.pending == {} && instance.finished == {} && NoneLeft(instance.model, first)
  {
    hide Instance.Valid, Shows;
    InstancePartitioned(instance);
    var returned := instance.model.returned;
    forall j | from <= j < |returned| ensures first <= returned[j] < first + |tiles| {
      assert returned[from..][j - from] == returned[j];
    }
    forall id: nat | first <= id < first + |tiles|
      ensures Shows(target.Value(), tiles[id - first], render) && id in returned
    {
      AllCollected(returned, from, first, |tiles|, id - first);
      var k :| 0 <= k < |returned[from..]| && returned[from..][k] == id;
      assert returned[from + k] == id;
    }
    forall i | 0 <= i < |tiles| ensures Shows(target.Value(), tiles[i], render) {
      var id := first + i;
      assert id in returned && tiles[id - first] == tiles[i];
    }
    NothingLeft(instance.model, first, |tiles|);
  }

  lemma NothingLeft<V>(s: Protocol<V>, first: nat, count: nat)
    requires Partitioned(s) && OnlyFrom(s, first) && |s.requests| == first + count
    requires forall id: nat :: first <= id < first + count ==> id in s.returned
    ensures s.inFlight == {} && s.finished == {} && NoneLeft(s, first)
  {
    if id :| id in s.inFlight || id in s.finished {
      assert false;
    }
  }

  // With fewer ids handed out than dispatched, and nothing finished, one is left.
  lemma SomeLeft<V>(s: Protocol<V>, from: nat, first: nat, count: nat)
    requires Partitioned(s) && s.finished == {} && |s.requests| == first + count
    requires from <= |s.returned| < from + count && AllBefore(s.returned[..from], first)
    requires forall j :: from <= j < |s.returned| ==> first <= s.returned[j]
    ensures !NoneLeft(s, first)
  {
    var own := |s.returned| - from;
    forall j | from <= j < |s.returned| ensures s.returned[j] < first + count {
      assert s.returned[j] in s.returned;
    }
    var shifted: seq<nat> := seq(own, j requires 0 <= j < own => s.returned[from + j] - first);
    NoDupLength(shifted, count);
    var k: nat :| k < count && k !in shifted;
    NotReturned(s.returned, from, first, k, shifted);
    assert first + k in s.inFlight || first + k in s.lost;
  }

  lemma NotReturned(returned: seq<nat>, from: nat, first: nat, k: nat, shifted: seq<nat>)
    requires from <= |returned| && AllBefore(returned[..from], first) && k !in shifted
    requires |shifted| == |returned| - from
    requires forall j :: 0 <= j < |shifted| ==> shifted[j] == returned[from + j] - first
    ensures first + k !in returned
  {
    forall j | 0 <= j < |returned| ensures returned[j] != first + k {
      if j < from { assert returned[..from][j] < first; } else { assert shifted[j - from] in shifted; }
    }
  }

  lemma Blocked<C>(instance: Instance<Picture<C>>, before: Protocol<Picture<C>>, clock: nat, tiles: seq<Tile>,
                   from: nat, first: nat)
    requires instance.Valid() && Partitioned(before) && instance.finished == {}
    requires clock <= |instance.replies| && instance.model == Absorb(before, instance.replies[clock..])
    requires |before.requests| == first + |tiles| && from <= |before.returned| < from + |tiles|
    requires AllBefore(before.returned[..from], first)
    requires forall j :: from <= j < |before.returned| ==> first <= before.returned[j]
    ensures !NoneLeft(instance.model, first)
  {
    hide Instance.Valid, Absorb, NoneLeft, Partitioned, AllBefore;
    InstancePartitioned(instance);
    StillInFlight(before, instance.replies[clock..], 0);
    SomeLeft(instance.model, from, first, |tiles|);
  }

  lemma OwnIds<C>(returned: seq<nat>, from: nat, image: Picture<C>, tiles: seq<Tile>, first: nat,
                  render: (Tile, int, int) -> C)
    requires WellSized(image) && from <= |returned| && AllShow(image, tiles, returned[from..], first, render)
    ensures forall j :: from <= j < |returned| ==> first <= returned[j]
  {
    hide WellSized, Shows;
    forall j | from <= j < |returned| ensures first <= returned[j] {
      assert returned[from..][j - from] == returned[j];
    }
  }

  lemma StillPending<V>(instance: Instance<V>, first: nat)
    requires instance.Valid() && NeverFails(instance.replies) && !NoneLeft(instance.model, first)
    ensures instance.pending != {}
  {
    hide Instance.Valid;
    NothingLost(instance);
    InstancePartitioned(instance);
  }

  // One turn of the collecting loop; false when it blocks for good.
  method CollectOne<C>(instance: Instance<Picture<C>>, tiles: seq<Tile>, images: seq<Future<Picture<C>>>, firstId: nat,
                       target: Image<C>, tileWidth: nat, tileHeight: nat, ghost render: (Tile, int, int) -> C,
                       ghost from: nat)
    returns (collected: bool)
    requires instance.Valid() && target.Valid()
    requires ExactCover(tiles, target.width, target.height)
    requires forall i :: 0 <= i < |tiles| ==> Proper(tiles[i], target.width, target.height, tileWidth, tileHeight)
    requires |images| == |tiles| && |instance.targets| == firstId + |tiles| && instance.targets[firstId..] == images
    requires Requested(instance.model.requests, firstId, tiles, render) && OnlyFrom(instance.model, firstId)
    requires from <= |instance.model.returned| < from + |tiles| && AllBefore(instance.model.returned[..from], firstId)
    requires AllShow(target.Value(), tiles, instance.model.returned[from..], firstId, render)
    modifies instance, instance.targets, target.data
    ensures instance.Valid() && instance.targets == old(instance.targets)
    ensures instance.model.requests == old(instance.model.requests)
    ensures collected ==>
              && OnlyFrom(instance.model, firstId)
              && |instance.model.returned| == |old(instance.model.returned)| + 1
              && AllBefore(instance.model.returned[..from], firstId)
              && AllShow(target.Value(), tiles, instance.model.returned[from..], firstId, render)
    ensures !collected ==>
              && instance.clock == |instance.replies| && instance.finished == {} && !NoneLeft(instance.model, firstId)
  {
    hide Partitioned, Quiet, Rendered, Proper, ExactCover, Disjoint, Shows;
    hide Absorb, Instance.Valid, WellSized, At, OnlyFrom, NoneLeft;
    ghost var before, clock := instance.model, instance.clock;
    ghost var ids := before.returned[from..];
    InstancePartitioned(instance);
    var f := instance.WaitOne();
    if f.None? {
      OwnIds(before.returned, from, target.Value(), tiles, firstId, render);
      Blocked(instance, before, clock, tiles, from, firstId);
      StillInFlight(before, instance.replies[clock..], 0);
      return false;
    }
    InstancePartitioned(instance);
    HandedOut(before, instance.replies[clock..instance.clock], f.value, firstId);
    ImageFilled(instance, f.value);
    PictureOf(before.requests, firstId, tiles, render, f.value, target.width, target.height, tileWidth, tileHeight);
    var idx := f.value - firstId;
    var t := tiles[idx];
    var image := images[idx].value.value;
    Place(target, t, image, tiles, ids, f.value, firstId, render);
    assert instance.model.returned[from..] == ids + [f.value];
    assert instance.model.returned[..from] == before.returned[..from];
    return true;
  }

  // The collecting loop; false when it blocks for good, with an invocation of its own
  // lost or never answered.
  method Collect<C>(instance: Instance<Picture<C>>, tiles: seq<Tile>, images: seq<Future<Picture<C>>>, firstId: nat,
                    target: Image<C>, tileWidth: nat, tileHeight: nat, ghost render: (Tile, int, int) -> C)
    returns (complete: bool)
    requires instance.Valid() && target.Valid()
    requires ExactCover(tiles, target.width, target.height)
    requires forall i :: 0 <= i < |tiles| ==> Proper(tiles[i], target.width, target.height, tileWidth, tileHeight)
    requires |images| == |tiles| && |instance.targets| == firstId + |tiles| && instance.targets[firstId..] == images
    requires Requested(instance.model.requests, firstId, tiles, render) && OnlyFrom(instance.model, firstId)
    requires AllBefore(instance.model.returned, firstId)
    modifies instance, instance.targets, target.data
    ensures instance.Valid()
    ensures complete <==> NoneLeft(instance.model, firstId)
    ensures NeverFails(instance.replies) ==> (complete <==> instance.pending == {})
    ensures complete ==> forall i :: 0 <= i < |tiles| ==> Shows(target.Value(), tiles[i], render)
    ensures complete ==> instance.pending == {} && instance.finished == {}
    ensures !complete ==> instance.clock == |instance.replies| && instance.finished == {}
  {
    hide Partitioned, Quiet, Rendered, Proper, ExactCover, Disjoint, Shows;
    hide Absorb, Instance.Valid, WellSized, At, OnlyFrom, NoneLeft;
    ghost var from := |instance.model.returned|;
    ghost var requests := instance.model.requests;
    for i := 0 to |images|
      invariant instance.Valid() && instance.targets == old(instance.targets) && instance.model.requests == requests
      invariant OnlyFrom(instance.model, firstId) && |instance.model.returned| == from + i
      invariant AllBefore(instance.model.returned[..from], firstId)
      invariant AllShow(target.Value(), tiles, instance.model.returned[from..], firstId, render)
    {
      var collected := CollectOne(instance, tiles, images, firstId, target, tileWidth, tileHeight, render, from);
      if !collected {
        if NeverFails(instance.replies) { StillPending(instance, firstId); }
        return false;
      }
    }
    complete := true;
    Conclude(instance, tiles, from, firstId, target, render);
  }

  // aws_lambda_renderer::start, one repetition: whatever order the invocations finish
  // in, when all are collected every pixel lies in one tile and shows the value its
  // own tile computed for it; all are collected exactly when none of them is lost or
  // left without an answer. `tiles` are the tiles that were used.
  method Start<C>(instance: Instance<Picture<C>>, target: Image<C>, tileWidth: nat, tileHeight: nat,
                  render: (Tile, int, int) -> C, blank: C)
    returns (complete: bool, tiles: seq<Tile>)
    requires instance.Valid() && instance.pending == {} && instance.finished == {}
    requires target.Valid() && target.width > 0 && target.height > 0 && tileWidth > 0 && tileHeight > 0
    modifies instance, instance.targets, target.data
    ensures instance.Valid() && ExactCover(tiles, target.width, target.height)
    ensures complete <==> NoneLeft(instance.model, |old(instance.targets)|)
    ensures NeverFails(instance.replies) ==> (complete <==> instance.pending == {})
    ensures complete ==> forall i :: 0 <= i < |tiles| ==> Shows(target.Value(), tiles[i], render)
    ensures complete ==> instance.pending == {} && instance.finished == {}
    ensures !complete ==> instance.clock == |instance.replies| && instance.finished == {}
  {
    hide ExactCover, Shows, Requested, OnlyFrom, WellSized, Instance.Valid;
    tiles := QuantizeImage(target.width, target.height, tileWidth, tileHeight);
    InstancePartitioned(instance);
    ghost var first := |instance.targets|;
    var images, firstId := DispatchTiles(instance, tiles, render, blank);
    InstancePartitioned(instance);
    assert |instance.model.requests| == first + |tiles| by {
      RequestCount(instance.model.requests, first, tiles, render);
    }
    if tiles == [] {
      NoTiles(target.width, target.height);
    }
    forall i | 0 <= i < |instance.targets|
      ensures fresh(instance.targets[i]) || instance.targets[i] in old(instance.targets)
    {
      if i < first {
        assert instance.targets[i] == old(instance.targets)[i];
      } else {
        assert instance.targets[i] == images[i - first] && images[i - first] in images;
      }
    }
    complete := Collect(instance, tiles, images, firstId, target, tileWidth, tileHeight, render);
  }

  lemma RequestCount<C>(requests: seq<Picture<C>>, first: nat, tiles: seq<Tile>, render: (Tile, int, int) -> C)
    requires Requested(requests, first, tiles, render)
    ensures |requests| == first + |tiles|
  {
  }

  // An image with pixels is not covered by no tiles.
  lemma NoTiles(width: nat, height: nat)
    requires width > 0 && height > 0
    ensures !ExactCover([], width, height)
  {
    assert !InOneTile([], 0, 0);
  }
}
