/**
 The raindrop animation: a fixed array of ten drops that each frame goes
 through a death pass with a count of the living and a search for a free
 slot, at most one spawn, and a pass that draws and ages the living drops.
 The `rand()` results of a frame are parameters; the display width and
 height are positive parameters too.
 */
module Rain {

  const Lifespan: nat := 7
  const MaxDrops: nat := 10
  const MinDrops: nat := 2

  /** One raindrop.  A dead drop's position and age are whatever was left
      in it (or never initialised) and play no part. */
  datatype Drop = Drop(x: nat, y: nat, age: nat, alive: bool)

  /** The three `rand()` results a frame may use: the spawn threshold, then
      the column and the row of a new drop. */
  datatype Rolls = Rolls(threshold: nat, x: nat, y: nat)

  /** A pen: an entry of the seven-colour palette, or black. */
  datatype Pen = Palette(index: int) | Black

  /** A filled circle drawn on the display. */
  datatype Circle = Circle(x: int, y: int, radius: int, pen: Pen)

  /** The number of living drops. */
  function CountAlive(s: seq<Drop>): (n: nat)
    ensures n <= |s|
  {
    if |s| == 0 then 0
    else CountAlive(s[..|s| - 1]) + (if s[|s| - 1].alive then 1 else 0)
  }

  /** The array at start-up: only `alive` is set, to false. */
  predicate AllDead(s: seq<Drop>) {
    forall i :: 0 <= i < |s| ==> !s[i].alive
  }

  // ---------------------------------------------------------------------
  // Counting lemmas

  lemma {:induction false} CountAliveAllDead(s: seq<Drop>)
    requires AllDead(s)
    ensures CountAlive(s) == 0
  {
    if |s| > 0 {
      CountAliveAllDead(s[..|s| - 1]);
    }
  }

  lemma {:induction false} CountAliveAllAlive(s: seq<Drop>)
    requires forall i :: 0 <= i < |s| ==> s[i].alive
    ensures CountAlive(s) == |s|
  {
    if |s| > 0 {
      CountAliveAllAlive(s[..|s| - 1]);
    }
  }

  /** A dead slot means fewer living drops than slots. */
  lemma {:induction false} CountAliveWithDead(s: seq<Drop>, g: nat)
    requires g < |s| && !s[g].alive
    ensures CountAlive(s) < |s|
  {
    if g < |s| - 1 {
      CountAliveWithDead(s[..|s| - 1], g);
    }
  }

  /** Fewer living drops position by position means no more living drops. */
  lemma {:induction false} CountAliveMonotone(a: seq<Drop>, b: seq<Drop>)
    requires |a| == |b|
    requires forall i :: 0 <= i < |b| ==> b[i].alive ==> a[i].alive
    ensures CountAlive(b) <= CountAlive(a)
  {
    if |a| > 0 {
      CountAliveMonotone(a[..|a| - 1], b[..|b| - 1]);
    }
  }

  lemma CountAliveSame(a: seq<Drop>, b: seq<Drop>)
    requires |a| == |b|
    requires forall i :: 0 <= i < |b| ==> b[i].alive == a[i].alive
    ensures CountAlive(b) == CountAlive(a)
  {
    CountAliveMonotone(a, b);
    CountAliveMonotone(b, a);
  }

  /** Bringing a dead slot to life adds one living drop. */
  lemma {:induction false} CountAliveRevive(s: seq<Drop>, g: nat, d: Drop)
    requires g < |s| && !s[g].alive && d.alive
    ensures CountAlive(s[g := d]) == CountAlive(s) + 1
  {
    var t := s[g := d];
    if g == |s| - 1 {
      assert t[..|t| - 1] == s[..|s| - 1];
    } else {
      assert t[..|t| - 1] == s[..|s| - 1][g := d];
      CountAliveRevive(s[..|s| - 1], g, d);
    }
  }

  // ---------------------------------------------------------------------
  // The frame step

  /** The death pass and the scan: drops that reached their
      lifespan die; `count` is the number of living drops and `gap` the last
      dead slot, or `MaxDrops` when every drop lives. */
  method DeathAndScan(drops: seq<Drop>) returns (after: seq<Drop>, count: nat, gap: nat)
    requires |drops| == MaxDrops
    ensures |after| == MaxDrops
    ensures forall i :: 0 <= i < MaxDrops ==>
              after[i] == drops[i].(alive := drops[i].alive && drops[i].age < Lifespan)
    ensures count == CountAlive(after)
    ensures gap <= MaxDrops
    ensures gap < MaxDrops ==> !after[gap].alive && forall j :: gap < j < MaxDrops ==> after[j].alive
    ensures gap == MaxDrops ==> forall j :: 0 <= j < MaxDrops ==> after[j].alive
    ensures gap < MaxDrops <==> count < MaxDrops
  {
    after := drops;
    count := 0;
    gap := MaxDrops;
    var i := 0;
    while i < MaxDrops
      invariant 0 <= i <= MaxDrops && |after| == MaxDrops
      invariant forall k :: 0 <= k < i ==>
                  after[k] == drops[k].(alive := drops[k].alive && drops[k].age < Lifespan)
      invariant forall k :: i <= k < MaxDrops ==> after[k] == drops[k]
      invariant count == CountAlive(after[..i])
      invariant gap == MaxDrops || gap < i
      invariant gap < MaxDrops ==> !after[gap].alive && forall j :: gap < j < i ==> after[j].alive
      invariant gap == MaxDrops ==> forall j :: 0 <= j < i ==> after[j].alive
    {
      if after[i].age >= Lifespan {
        after := after[i := after[i].(alive := false)];
      }
      assert after[..i + 1][..i] == after[..i];
      if after[i].alive {
        count := count + 1;
      } else {
        gap := i;
      }
      i := i + 1;
    }
    assert after[..MaxDrops] == after;
    if gap < MaxDrops {
      CountAliveWithDead(after, gap);
    } else {
      CountAliveAllAlive(after);
    }
  }

  /** Whether this frame spawns a drop: there is a dead slot
      and fewer drops live than a random threshold between 2 and 9. */
  predicate Spawns(count: nat, gap: nat, rolls: Rolls) {
    gap < MaxDrops && count < MinDrops + rolls.threshold % (MaxDrops - MinDrops)
  }

  /** The spawn: at most one new drop, in slot `gap`, young
      and at a random place on the display. */
  function Spawn(drops: seq<Drop>, count: nat, gap: nat, rolls: Rolls, width: nat, height: nat): (r: seq<Drop>)
    requires |drops| == MaxDrops && width > 0 && height > 0
    ensures |r| == MaxDrops
    ensures forall i :: 0 <= i < MaxDrops && i != gap ==> r[i] == drops[i]
    ensures r != drops ==> Spawns(count, gap, rolls)
    ensures Spawns(count, gap, rolls) ==>
              r[gap].alive && r[gap].age == 0 && r[gap].x < width && r[gap].y < height
  {
    if Spawns(count, gap, rolls) then
      drops[gap := Drop(rolls.x % width, rolls.y % height, 0, true)]
    else drops
  }

  /** The circles drawn for one living drop: a ring in the
      colour of its age, and a dot in the middle once it is old enough. */
  function DropCircles(d: Drop): seq<Circle> {
    [Circle(d.x, d.y, d.age, Palette(d.age))]
    + (if d.age > 1 then [Circle(d.x, d.y, d.age - 1, Black)] else [])
    + (if d.age > 4 then [Circle(d.x, d.y, 1, Palette(d.age))] else [])
  }

  /** The circles of the living drops of `s`, slot by slot. */
  function Drawn(s: seq<Drop>): seq<Circle> {
    if s == [] then []
    else Drawn(s[..|s| - 1]) + (if s[|s| - 1].alive then DropCircles(s[|s| - 1]) else [])
  }

  /** Every palette pen is an entry of the seven-colour palette. */
  predicate PensInPalette(cs: seq<Circle>) {
    forall k :: 0 <= k < |cs| ==> cs[k].pen.Palette? ==> 0 <= cs[k].pen.index < Lifespan
  }

  /** The drawing and aging pass.  The palette is indexed by
      the age, so every living drop must be younger than its lifespan. */
  method AgeAndDraw(drops: seq<Drop>) returns (after: seq<Drop>, circles: seq<Circle>)
    requires forall i :: 0 <= i < |drops| ==> drops[i].alive ==> drops[i].age < Lifespan
    ensures |after| == |drops|
    ensures forall i :: 0 <= i < |drops| ==>
              after[i] == if drops[i].alive then drops[i].(age := drops[i].age + 1) else drops[i]
    ensures circles == Drawn(drops)
    ensures PensInPalette(circles)
  {
    after := drops;
    circles := [];
    var i := 0;
    while i < |drops|
      invariant 0 <= i <= |drops| && |after| == |drops|
      invariant forall k :: 0 <= k < i ==>
                  after[k] == if drops[k].alive then drops[k].(age := drops[k].age + 1) else drops[k]
      invariant forall k :: i <= k < |drops| ==> after[k] == drops[k]
      invariant circles == Drawn(drops[..i])
      invariant PensInPalette(circles)
    {
      assert drops[..i + 1][..i] == drops[..i];
      if after[i].alive {
        circles := circles + DropCircles(after[i]);
        after := after[i := after[i].(age := after[i].age + 1)];
      }
      i := i + 1;
    }
    assert drops[..i] == drops;
  }

  /** One frame of the animation. */
  method Frame(drops: seq<Drop>, rolls: Rolls, width: nat, height: nat)
      returns (after: seq<Drop>, circles: seq<Circle>)
    requires |drops| == MaxDrops && width > 0 && height > 0
    ensures |after| == MaxDrops
    ensures PensInPalette(circles)
    ensures CountAlive(after) <= CountAlive(drops) + 1
    ensures CountAlive(drops) < MaxDrops ==> CountAlive(after) < MaxDrops
    ensures forall i :: 0 <= i < MaxDrops ==> after[i].alive ==> 1 <= after[i].age <= Lifespan
    ensures forall i :: 0 <= i < MaxDrops && drops[i].alive && drops[i].age < Lifespan ==>
              after[i] == drops[i].(age := drops[i].age + 1)
  {
    var scanned, count, gap := DeathAndScan(drops);
    CountAliveMonotone(drops, scanned);
    if gap == MaxDrops {
      CountAliveAllAlive(scanned);
    }
    var spawned := Spawn(scanned, count, gap, rolls, width, height);
    if Spawns(count, gap, rolls) {
      CountAliveRevive(scanned, gap, spawned[gap]);
      assert spawned == scanned[gap := spawned[gap]];
    } else {
      assert spawned == scanned;
    }
    after, circles := AgeAndDraw(spawned);
    CountAliveSame(spawned, after);
  }

  /** The animation from start-up through one frame per element of `rolls`:
      at most nine drops ever live, so a slot is always free, and every
      palette lookup is in bounds. */
  method Animate(start: seq<Drop>, rolls: seq<Rolls>, width: nat, height: nat)
      returns (drops: seq<Drop>, circles: seq<Circle>)
    requires |start| == MaxDrops && AllDead(start) && width > 0 && height > 0
    ensures |drops| == MaxDrops
    ensures CountAlive(drops) < MaxDrops
    ensures PensInPalette(circles)
  {
    drops := start;
    circles := [];
    CountAliveAllDead(start);
    var n := 0;
    while n < |rolls|
      invariant 0 <= n <= |rolls|
      invariant |drops| == MaxDrops
      invariant CountAlive(drops) < MaxDrops
      invariant PensInPalette(circles)
    {
      var frame;
      drops, frame := Frame(drops, rolls[n], width, height);
      circles := circles + frame;
      n := n + 1;
    }
  }
}
