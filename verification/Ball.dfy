/** The ball and chain of `ball.c`: a hero, a chain and a ball that must stay linked. */
module Ball {

  datatype Pos = Pos(x: int, y: int)

  function Abs(n: int): nat { if n < 0 then -n else n }

  function Dist2(a: Pos, b: Pos): nat {
    Abs(a.x - b.x) * Abs(a.x - b.x) + Abs(a.y - b.y) * Abs(a.y - b.y)
  }

  function DistMin(a: Pos, b: Pos): nat {
    if Abs(a.x - b.x) > Abs(a.y - b.y) then Abs(a.x - b.x) else Abs(a.y - b.y)
  }

  predicate Near(a: Pos, b: Pos) { DistMin(a, b) <= 1 }

  lemma Squares(n: nat)
    ensures n <= 2 ==> n * n == if n == 0 then 0 else if n == 1 then 1 else 4
    ensures n >= 2 ==> n * n >= 4
    ensures n >= 3 ==> n * n >= 9
  {
    if n >= 3 {
      assert n * n >= 3 * n;
    } else if n == 2 {
      assert n * n == 4;
    }
  }

  /** What the squared distance says about the two offsets. */
  lemma Offsets(a: Pos, b: Pos)
    ensures Dist2(a, b) <= 2 <==> Near(a, b)
    ensures Dist2(a, b) == 4 ==> (a.x == b.x && Abs(a.y - b.y) == 2) || (a.y == b.y && Abs(a.x - b.x) == 2)
    ensures DistMin(a, b) <= 2 ==>
              var d := Dist2(a, b);
              && (d == 0 || d == 1 || d == 2 || d == 4 || d == 5 || d == 8)
              && (d == 8 ==> Abs(a.x - b.x) == 2 && Abs(a.y - b.y) == 2)
              && (d == 5 ==>
                  (Abs(a.x - b.x) == 1 && Abs(a.y - b.y) == 2) || (Abs(a.x - b.x) == 2 && Abs(a.y - b.y) == 1))
              && (d == 2 ==> Abs(a.x - b.x) == 1 && Abs(a.y - b.y) == 1)
    ensures Dist2(a, b) <= 8 ==> DistMin(a, b) <= 2
  {
    Squares(Abs(a.x - b.x));
    Squares(Abs(a.y - b.y));
  }

  lemma CloseOffsets(a: Pos, b: Pos)
    ensures Dist2(a, b) == 1 <==> (a.x == b.x && Abs(a.y - b.y) == 1) || (a.y == b.y && Abs(a.x - b.x) == 1)
    ensures Dist2(a, b) == 2 <==> Abs(a.x - b.x) == 1 && Abs(a.y - b.y) == 1
  {
    Squares(Abs(a.x - b.x));
    Squares(Abs(a.y - b.y));
  }

  function Middle(a: Pos, b: Pos): Pos {
    Pos((a.x + b.x) / 2, (a.y + b.y) / 2)
  }

  datatype Control = Neither | ChainOnly | BallOnly | Both

  /** What the level and the hero's state answer to the questions that `drag_ball` asks. */
  datatype Scene = Scene(rock: Pos -> bool, overloaded: bool, snag: Pos -> bool, levitating: bool, monsterStays: bool,
      coin: bool)

  /** What `drag_ball` asks its caller to place. */
  datatype Plan = Plan(control: Control, ball: Pos, chain: Pos, delay: bool)

  class Punishment {
    var hero: Pos
    var ball: Pos
    var chain: Pos
    const carried: bool
    /** Whether ball and chain have been picked up from the floor. */
    var lifted: bool
    var liftings: nat
    var placings: nat

    constructor (hero: Pos, ball: Pos, chain: Pos, carried: bool)
      ensures this.hero == hero && this.ball == ball && this.chain == chain && this.carried == carried
      ensures !lifted && liftings == 0 && placings == 0
    {
      this.hero, this.ball, this.chain, this.carried := hero, ball, chain, carried;
      lifted, liftings, placings := false, 0, 0;
    }

    /** The hero is next to the chain, and the chain next to a ball on the floor. */
    predicate Linked()
      reads this
    {
      Near(hero, chain) && (carried || Near(chain, ball))
    }

    /** Every lifting has been followed by a placing. */
    predicate Alternating()
      reads this
    {
      liftings == placings + (if lifted then 1 else 0)
    }

    /** `move_bc(1, ...)` of a hero who can see. */
    method Lift()
      requires !lifted && Alternating()
      modifies this`lifted, this`liftings
      ensures lifted && Alternating()
    {
      lifted := true;
      liftings := liftings + 1;
    }

    /** `move_bc(0, ...)` of a hero who can see. */
    method Place(ballTo: Pos, chainTo: Pos)
      requires lifted && Alternating()
      modifies this`lifted, this`placings, this`ball, this`chain
      ensures !lifted && Alternating() && chain == chainTo && ball == (if carried then old(ball) else ballTo)
    {
      if !carried {
        ball := ballTo;
      }
      chain := chainTo;
      lifted := false;
      placings := placings + 1;
    }

    predicate ChainInMiddle(to: Pos, p: Pos)
      reads this`ball
    {
      DistMin(to, p) <= 1 && DistMin(p, ball) <= 1
    }

    /** The two squares between a hero at `to` and a ball a knight's move away. */
    function Candidates(to: Pos): (Pos, Pos)
      reads this`ball
    {
      if Abs(to.x - ball.x) == 1 then (Pos(to.x, (ball.y + to.y) / 2), Pos(ball.x, (ball.y + to.y) / 2))
      else (Pos((ball.x + to.x) / 2, to.y), Pos((ball.x + to.x) / 2, ball.y))
    }

    /** They are the only squares next to both. */
    lemma CandidatesExactly(to: Pos)
      requires Dist2(to, ball) == 5
      ensures var (p, q) := Candidates(to); forall s :: Near(to, s) && Near(s, ball) <==> s == p || s == q
    {
      Offsets(to, ball);
      hide Dist2;
    }

    /** Moving only the chain would look wrong when the other of the two squares, `rocky`, is rock. */
    predicate Pathological(to: Pos, rocky: Pos)
      reads this`hero, this`ball
    {
      (Dist2(hero, ball) == 5 && Dist2(to, rocky) == 1) || (Dist2(hero, ball) == 4 && Dist2(to, rocky) == 2)
    }

    /**
     For a step of the hero that is so exactly when the rocky square was between her and the ball already before the
     step: the one in the middle of a straight line, or any next to both when the ball was a knight's move away.
     */
    lemma PathologicalExactly(to: Pos, rocky: Pos)
      requires Dist2(to, ball) == 5 && Near(to, rocky) && Near(rocky, ball) && Near(to, hero) && to != hero
      ensures Pathological(to, rocky) <==>
              || (Dist2(hero, ball) == 4 && 2 * rocky.x == hero.x + ball.x && 2 * rocky.y == hero.y + ball.y)
              || (Dist2(hero, ball) == 5 && Near(hero, rocky))
    {
      Offsets(to, ball);
      Offsets(hero, ball);
      Offsets(to, rocky);
      CloseOffsets(to, rocky);
      hide Dist2;
    }

    /**
     The case of `drag_ball` in which the ball is a knight's move away.  The chain goes to the only one of
     two squares that is not rock, or else to the one closer to it; otherwise the ball has to be dragged.
     */
    method KnightMove(to: Pos, scene: Scene, allowDrag: bool, alreadyInRock: bool) returns (ok: bool, chainTo: Pos)
      requires DistMin(to, ball) <= 2 && Dist2(to, ball) == 5
      ensures ok ==> Near(to, chainTo) && Near(chainTo, ball)
      ensures ok && !alreadyInRock ==> !scene.rock(chainTo)
      ensures !ok ==> exists p :: scene.rock(p) && Near(to, p) && Near(p, ball)
      ensures var (p, q) := Candidates(to);
              && (ok ==> chainTo == p || chainTo == q)
              && (ok && (alreadyInRock || (!scene.rock(p) && !scene.rock(q))) ==>
                    Dist2(chainTo, chain) <= Dist2(p, chain) && Dist2(chainTo, chain) <= Dist2(q, chain))
              && (ok <==> alreadyInRock || (!scene.rock(p) && !scene.rock(q)) ||
                          (scene.rock(p) != scene.rock(q) &&
                              !(allowDrag && Pathological(to, if scene.rock(p) then p else q))))
      ensures alreadyInRock || (forall p :: Near(to, p) && Near(p, ball) ==> !scene.rock(p)) ==>
                ok && forall p :: Near(to, p) && Near(p, ball) ==> Dist2(chainTo, chain) <= Dist2(p, chain)
      ensures !alreadyInRock && (forall p :: Near(to, p) && Near(p, ball) ==> scene.rock(p)) ==> !ok
      ensures !alreadyInRock && !allowDrag && (exists p :: Near(to, p) && Near(p, ball) && !scene.rock(p)) ==> ok
    {
      Offsets(to, ball);
      CandidatesExactly(to);
      var (temp, temp2) := Candidates(to);
      hide Dist2;
      if scene.rock(temp) && !scene.rock(temp2) && !alreadyInRock {
        if allowDrag {
          if Dist2(hero, ball) == 5 && Dist2(to, temp) == 1 {
            return false, chain;
          }
          if Dist2(hero, ball) == 4 && Dist2(to, temp) == 2 {
            return false, chain;
          }
        }
        return true, temp2;
      } else if !scene.rock(temp) && scene.rock(temp2) && !alreadyInRock {
        if allowDrag {
          if Dist2(hero, ball) == 5 && Dist2(to, temp2) == 1 {
            return false, chain;
          }
          if Dist2(hero, ball) == 4 && Dist2(to, temp2) == 2 {
            return false, chain;
          }
        }
        return true, temp;
      } else if scene.rock(temp) && scene.rock(temp2) && !alreadyInRock {
        return false, chain;
      } else if Dist2(temp, chain) < Dist2(temp2, chain) || (Dist2(temp, chain) == Dist2(temp2, chain) && scene.coin) {
        return true, temp;
      } else {
        return true, temp2;
      }
    }

    /** The hero, the chain or the ball is in rock already, which lifts the ban on moving the chain there. */
    predicate AlreadyInRock(scene: Scene)
      reads this`hero, this`ball, this`chain
    {
      scene.rock(hero) || scene.rock(chain) || scene.rock(ball)
    }

    /** The corner between a hero and a ball next to each other, on the chain's row or column. */
    function Corner(to: Pos): Pos
      reads this`ball, this`chain
    {
      if chain.y == to.y then Pos(ball.x, chain.y) else Pos(chain.x, ball.y)
    }

    /** It is next to both; and for a chain next to the ball it is half way from the hero's new square to the chain. */
    lemma CornerExactly(to: Pos)
      requires Dist2(to, ball) == 2 && Dist2(to, chain) == 4
      ensures Near(to, Corner(to)) && Near(Corner(to), ball)
      ensures Near(chain, ball) ==> Corner(to) == Pos((to.x + chain.x) / 2, (to.y + chain.y) / 2)
    {
      Offsets(to, ball);
      Offsets(to, chain);
      hide Dist2;
    }

    lemma MiddleExactly(to: Pos)
      requires Dist2(to, ball) == 8 || Dist2(to, ball) == 4
      ensures Near(to, Middle(to, ball)) && Near(Middle(to, ball), ball) && Middle(to, ball) == Middle(ball, to)
      ensures Middle(to, ball) == Pos((to.x + ball.x) / 2, (to.y + ball.y) / 2)
    {
      Offsets(to, ball);
      hide Dist2;
    }

    /** What is close enough for the chain to stay at the hero. */
    lemma CloseExactly(to: Pos)
      requires DistMin(to, ball) <= 2 && Dist2(to, chain) > 2
      ensures !Near(to, chain) && Near(to, to) && (Dist2(to, ball) <= 2 <==> Near(to, ball))
      ensures var d := Dist2(to, ball); d == 0 || d == 1 || d == 2 || d == 4 || d == 5 || d == 8
    {
      Offsets(to, ball);
      Offsets(to, chain);
      hide Dist2;
    }

    /** Rock keeps the chain from following alone, for a ball within two squares. */
    predicate ChainBlocked(to: Pos, scene: Scene, allowDrag: bool)
      reads this`hero, this`ball, this`chain
    {
      var d := Dist2(to, ball);
      var (p, q) := Candidates(to);
      && !AlreadyInRock(scene)
      && (if d == 8 || d == 4 then scene.rock(Middle(to, ball))
          else if d == 5 then (scene.rock(p) && scene.rock(q)) ||
                              (scene.rock(p) != scene.rock(q) && allowDrag &&
                                  Pathological(to, if scene.rock(p) then p else q))
          else d == 2 && Dist2(to, chain) == 4 && scene.rock(Corner(to)))
    }

    /** The switch over the distance to the ball; its default branch cannot be reached. */
    method MoveChain(to: Pos, scene: Scene, allowDrag: bool) returns (ok: bool, chainTo: Pos)
      requires DistMin(to, ball) <= 2 && Dist2(to, chain) > 2
      ensures ok ==> Near(to, chainTo) && Near(chainTo, ball)
      ensures ok && !scene.rock(hero) && !scene.rock(chain) && !scene.rock(ball) && !scene.rock(to) ==>
                !scene.rock(chainTo)
      ensures !ok <==> ChainBlocked(to, scene, allowDrag)
      ensures !ok ==> exists p :: scene.rock(p) && Near(to, p) && Near(p, ball)
      ensures scene.rock(hero) || scene.rock(chain) || scene.rock(ball) ==> ok
      ensures Dist2(to, ball) == 8 || Dist2(to, ball) == 4 ==>
                var p := Pos((to.x + ball.x) / 2, (to.y + ball.y) / 2);
                (ok ==> chainTo == p) && (!ok ==> scene.rock(p)) && (ok && scene.rock(p) ==> AlreadyInRock(scene))
      ensures Dist2(to, ball) == 2 && Dist2(to, chain) == 4 && Near(chain, ball) ==>
                var p := Pos((to.x + chain.x) / 2, (to.y + chain.y) / 2);
                (ok ==> chainTo == p) && (!ok ==> scene.rock(p)) && (ok && scene.rock(p) ==> AlreadyInRock(scene))
      ensures Dist2(to, ball) <= 2 && !(Dist2(to, ball) == 2 && Dist2(to, chain) == 4) ==>
                ok && chainTo == if Near(to, hero) && Near(hero, ball) then hero else to
    {
      var alreadyInRock := AlreadyInRock(scene);
      var distance := Dist2(to, ball);
      CloseExactly(to);
      if distance == 8 || distance == 4 {
        MiddleExactly(to);
      }
      if distance == 2 && Dist2(to, chain) == 4 {
        CornerExactly(to);
      }
      hide Dist2, DistMin, Abs, Middle;
      if distance == 8 {
        chainTo := Middle(ball, to);
        if scene.rock(chainTo) && !alreadyInRock {
          return false, chain;
        }
        return true, chainTo;
      } else if distance == 5 {
        ok, chainTo := KnightMove(to, scene, allowDrag, alreadyInRock);
        return ok, chainTo;
      } else if distance == 4 {
        if ChainInMiddle(to, chain) {
          return true, chain;
        }
        chainTo := Middle(to, ball);
        if scene.rock(chainTo) && !alreadyInRock {
          return false, chain;
        }
        return true, chainTo;
      } else if distance == 2 && Dist2(to, chain) == 4 {
        if chain.y == to.y {
          chainTo := Pos(ball.x, chain.y);
        } else {
          chainTo := Pos(chain.x, ball.y);
        }
        assert chainTo == Corner(to);
        if scene.rock(chainTo) && !alreadyInRock {
          return false, chain;
        }
        return true, chainTo;
      } else {
        assert distance == 2 || distance == 1 || distance == 0;
        if ChainInMiddle(to, chain) {
          return true, chain;
        }
        if ChainInMiddle(to, hero) {
          return true, hero;
        }
        return true, to;
      }
    }

    /** The hero can neither drag the ball with her load nor pull it when the chain is caught in water or a trap. */
    predicate DragRefused(to: Pos, scene: Scene)
      reads this`hero, this`chain
    {
      (scene.overloaded && Near(to, hero)) || (scene.snag(chain) && !scene.levitating)
    }

    /** The ball follows to the chain's square and the chain to the hero's; after a teleport both come to `to`. */
    function DragPlan(to: Pos): Plan
      reads this`hero, this`chain
    {
      if Near(to, hero) then Plan(Both, chain, hero, true) else Plan(Both, to, to, true)
    }

    /** The part of `drag_ball` in which the hero pulls at the ball. */
    method Drag(to: Pos, scene: Scene) returns (go: bool, plan: Plan)
      requires Linked() && !carried && !lifted && Alternating()
      modifies this
      ensures Alternating() && lifted == go
      ensures !go ==>
                Linked() && chain == old(chain) && (hero == old(hero) || hero == chain) &&
                    (ball == old(ball) || ball == chain)
      ensures go <==> !old(DragRefused(to, scene))
      ensures go <==> !(scene.overloaded && Near(to, old(hero))) && (scene.snag(old(chain)) ==> scene.levitating)
      ensures go ==> hero == old(hero) && ball == old(ball) && chain == old(chain) && plan == DragPlan(to)
      ensures go ==> plan == if Near(to, hero) then Plan(Both, chain, hero, true) else Plan(Both, to, to, true)
      ensures go ==> Near(to, plan.chain) && Near(plan.chain, plan.ball) && (plan.chain == hero || plan.chain == to)
      ensures !go && scene.overloaded && Near(to, old(hero)) ==> hero == old(hero) && ball == old(ball)
      ensures !go && !(scene.overloaded && Near(to, old(hero))) ==>
                ball == chain && hero == if scene.monsterStays then old(hero) else chain
    {
      plan := Plan(Neither, ball, chain, false);
      Offsets(to, hero);
      if scene.overloaded && Dist2(to, hero) <= 2 {
        return false, plan;
      }
      if scene.snag(chain) {
        if !scene.levitating {
          if !scene.monsterStays {
            hero := chain;
          }
          Lift();
          Place(chain, chain);
          return false, plan.(control := BallOnly, ball := chain);
        }
      }
      Lift();
      if Dist2(to, hero) > 2 {
        plan := Plan(Both, to, to, true);
      } else {
        plan := Plan(Both, chain, hero, true);
      }
      return true, plan;
    }

    /** `drag_ball` refuses: the chain cannot follow alone, and the hero cannot pull the ball. */
    predicate Refuses(to: Pos, scene: Scene, allowDrag: bool)
      reads this
    {
      !carried && !Near(to, chain) && (DistMin(to, ball) <= 2 ==> ChainBlocked(to, scene, allowDrag)) &&
          DragRefused(to, scene)
    }

    /** The ball is out of the chain's reach, or rock is in the way of the chain alone. */
    ghost predicate Hindered(to: Pos, scene: Scene)
      reads this`ball
    {
      DistMin(to, ball) > 2 || exists p :: scene.rock(p) && Near(to, p) && Near(p, ball)
    }

    /**
     `drag_ball`: called before the hero moves to `to`.  When it answers `true`, ball and chain have
     been lifted and wait to be placed as planned; otherwise they are on the floor and still linked.
     The plan keeps them linked, except that a carried ball's chain goes to the hero's old square.  The
     ball moves only when the chain alone is hindered.
     */
    method DragBall(to: Pos, scene: Scene, allowDrag: bool) returns (go: bool, plan: Plan)
      requires Linked() && !lifted && Alternating()
      modifies this
      ensures Alternating() && lifted == go
      ensures !go ==>
                Linked() && !carried && chain == old(chain) && (hero == old(hero) || hero == chain) &&
                    (ball == old(ball) || ball == chain)
      ensures go ==> hero == old(hero) && ball == old(ball) && chain == old(chain)
      ensures go && !carried ==> Near(to, plan.chain) && Near(plan.chain, plan.ball)
      ensures Near(to, old(chain)) ==> go && plan == Plan(Neither, ball, chain, false)
      ensures !Near(to, old(chain)) && carried ==> go && plan == Plan(ChainOnly, ball, hero, false)
      ensures go && !Near(to, chain) && !carried ==>
                plan == DragPlan(to) || (DistMin(to, ball) <= 2 && plan == Plan(ChainOnly, ball, plan.chain, false))
      ensures !go || plan.control == Both ==> old(!Near(to, chain) && Hindered(to, scene))
      ensures go <==> !old(Refuses(to, scene, allowDrag))
      ensures go && !scene.rock(hero) && !scene.rock(chain) && !scene.rock(ball) && !scene.rock(to) ==>
                !scene.rock(plan.chain)
    {
      plan := Plan(Neither, ball, chain, false);
      Offsets(to, chain);
      if Dist2(to, chain) <= 2 {
        Lift();
        return true, plan;
      }
      if carried || DistMin(to, ball) <= 2 {
        plan := plan.(control := ChainOnly);
        Lift();
        if carried {
          if DistMin(to, chain) > 1 {
            plan := plan.(chain := hero);
          }
          return true, plan;
        }
        var ok, chainTo := MoveChain(to, scene, allowDrag);
        if ok {
          return true, plan.(chain := chainTo);
        }
        Place(ball, chain);
      }
      go, plan := Drag(to, scene);
    }

    /**
     One step of the hero, with ball and chain placed as planned.  They are linked afterwards exactly
     unless the ball is carried and the hero leaves both the chain and her old square behind.
     */
    method Step(to: Pos, scene: Scene, allowDrag: bool) returns (moved: bool)
      requires Linked() && !lifted && Alternating()
      modifies this
      ensures !lifted && Alternating() && (moved ==> hero == to)
      ensures Near(to, old(chain)) ==> moved && chain == old(chain) && ball == old(ball)
      ensures !Near(to, old(chain)) && carried ==> moved && chain == old(hero) && ball == old(ball)
      ensures moved && ball != old(ball) ==> !carried && old(Hindered(to, scene))
      ensures moved && ball != old(ball) ==>
                if Near(to, old(hero)) then ball == old(chain) && chain == old(hero) else ball == to && chain == to
      ensures moved <==> !old(Refuses(to, scene, allowDrag))
      ensures Linked() <==> !(carried && !Near(to, old(chain)) && !Near(to, old(hero)))
      ensures !scene.rock(old(hero)) && !scene.rock(old(chain)) && !scene.rock(old(ball)) && !scene.rock(to) ==>
                !scene.rock(chain)
    {
      var plan;
      moved, plan := DragBall(to, scene, allowDrag);
      if moved {
        hero := to;
        Place(plan.ball, plan.chain);
      }
    }

    /** Walking moves the hero by one square, so it keeps ball and chain linked. */
    method Walk(to: Pos, scene: Scene) returns (moved: bool)
      requires Linked() && !lifted && Alternating() && Near(to, hero)
      modifies this
      ensures Linked() && !lifted && Alternating()
    {
      moved := Step(to, scene, true);
    }

    /** `unplacebc`. */
    method Unplace()
      requires !lifted && Alternating()
      modifies this`lifted, this`liftings
      ensures lifted && Alternating()
    {
      Lift();
    }

    /** `placebc`: the chain, and a ball that is not carried, come to lie under the hero. */
    method PlaceHere()
      requires lifted && Alternating()
      modifies this`lifted, this`placings, this`ball, this`chain
      ensures !lifted && Alternating() && chain == hero && ball == (if carried then old(ball) else hero)
    {
      Place(hero, hero);
    }

    /** `teleds` has `drag_ball` move the chain: the ball stays in range, or is dragged by one square. */
    predicate Drags(to: Pos, allowDrag: bool)
      reads this
    {
      (!carried && DistMin(to, ball) <= 2) || (allowDrag && DistMin(hero, to) <= 1)
    }

    /**
     `teleds`, by which every jump moves the hero: out of the ball's range, ball and chain are taken up and
     put down where she arrives, so that they are linked however far she jumps, also with the ball carried.
     In range `drag_ball` moves them, but its refusal is ignored: then, and only then, the hero arrives
     without them.
     */
    method Teleport(to: Pos, scene: Scene, allowDrag: bool)
      requires Linked() && !lifted && Alternating()
      modifies this
      ensures hero == to && !lifted && Alternating()
      ensures Linked() <==> !old(Drags(to, allowDrag) && Refuses(to, scene, allowDrag))
      ensures !old(Drags(to, allowDrag)) ==> chain == to && (carried || ball == to)
      ensures (carried || DistMin(to, old(ball)) > 2) && (!allowDrag || DistMin(old(hero), to) > 1) ==>
                chain == to && (carried || ball == to)
      ensures old(!carried && !Hindered(to, scene)) ==> ball == old(ball)
      ensures old(Drags(to, allowDrag) && Refuses(to, scene, allowDrag)) ==>
                chain == old(chain) && (ball == old(ball) || ball == chain)
      ensures carried ==> Linked()
      ensures !scene.rock(old(hero)) && !scene.rock(old(chain)) && !scene.rock(old(ball)) && !scene.rock(to) ==>
                !scene.rock(chain)
    {
      var drag, inRange := allowDrag, false;
      if !carried && DistMin(to, ball) <= 2 {
        inRange := true;
      } else if !drag || DistMin(hero, to) > 1 {
        drag := false;
        Unplace();
      }
      if inRange || drag {
        var go, plan := DragBall(to, scene, drag);
        if go {
          Place(plan.ball, plan.chain);
        }
      }
      hero := to;
      if !inRange && !drag {
        PlaceHere();
      }
    }
  }

  lemma FarAside()
    ensures Near(Pos(2, 2), Pos(3, 3)) && Near(Pos(3, 3), Pos(4, 4)) && !Near(Pos(6, 4), Pos(3, 3))
    ensures DistMin(Pos(6, 4), Pos(4, 4)) == 2 && Dist2(Pos(6, 4), Pos(4, 4)) == 4
    ensures Middle(Pos(6, 4), Pos(4, 4)) == Pos(5, 4)
  {
    hide Dist2;
    FarApart();
  }

  lemma FarApart()
    ensures Dist2(Pos(6, 4), Pos(4, 4)) == 4
  {
    var two: int := Abs(2);
    assert Abs(6 - 4) == two && Abs(4 - 4) == 0;
    assert two * two == 4;
  }

  /**
   The hero is teleported over a rock while the chain lies in a trap: `drag_ball` refuses, and she
   arrives without ball and chain.
   */
  method TornOff() returns (p: Punishment)
    ensures fresh(p) && !p.carried && p.hero == Pos(6, 4) && p.chain == Pos(3, 3) && !p.Linked()
  {
    FarAside();
    hide Dist2, DistMin, Middle, Abs;
    p := new Punishment(Pos(2, 2), Pos(4, 4), Pos(3, 3), false);
    var scene := Scene(q => q == Pos(5, 4), false, q => q == Pos(3, 3), false, true, false);
    var to := Pos(6, 4);
    assert p.ChainBlocked(to, scene, false);
    p.Teleport(to, scene, false);
  }
}
