/** Runs of several actors under a fair schedule, and the rule that shows such runs reach a goal. */
module Fairness {

  /** Where a system is after n moves of a schedule. */
  function At<S, M>(step: (S, M) -> S, s: S, schedule: nat -> M, n: nat): S {
    if n == 0 then s else At(step, step(s, schedule(0)), Later(schedule), n - 1)
  }

  function Later<M>(schedule: nat -> M): nat -> M {
    (n: nat) => schedule(n + 1)
  }

  /** A schedule with one move in front. */
  function After<M>(move: M, schedule: nat -> M): nat -> M {
    (n: nat) => if n == 0 then move else schedule(n - 1)
  }

  lemma {:induction false} SameMoves<S, M>(step: (S, M) -> S, s: S, a: nat -> M, b: nat -> M, n: nat)
    requires forall i: nat :: a(i) == b(i)
    ensures At(step, s, a, n) == At(step, s, b, n)
    decreases n
  {
    if n > 0 {
      SameMoves(step, step(s, a(0)), Later(a), Later(b), n - 1);
    }
  }

  /** Each of the actors moves again and again; others may move or not. */
  ghost predicate Fair<M, A>(schedule: nat -> M, actor: M -> A, actors: set<A>) {
    forall a, n: nat | a in actors :: Moves(schedule, actor, a, n)
  }

  ghost predicate Moves<M, A>(schedule: nat -> M, actor: M -> A, a: A, n: nat) {
    exists m: nat :: n <= m && actor(schedule(m)) == a
  }

  lemma LaterIsFair<M, A>(schedule: nat -> M, actor: M -> A, actors: set<A>)
    requires Fair(schedule, actor, actors)
    ensures Fair(Later(schedule), actor, actors)
  {
    forall a, n: nat | a in actors ensures Moves(Later(schedule), actor, a, n) {
      assert Moves(schedule, actor, a, n + 1);
      var m: nat :| n + 1 <= m && actor(schedule(m)) == a;
      assert actor(Later(schedule)(m - 1)) == a;
    }
  }

  lemma AfterIsFair<M, A>(move: M, schedule: nat -> M, actor: M -> A, actors: set<A>)
    requires Fair(schedule, actor, actors)
    ensures Fair(After(move, schedule), actor, actors)
  {
    forall a, n: nat | a in actors ensures Moves(After(move, schedule), actor, a, n) {
      assert Moves(schedule, actor, a, n);
      var m: nat :| n <= m && actor(schedule(m)) == a;
      assert actor(After(move, schedule)(m + 1)) == a;
    }
  }

  /** A proof that a goal is reached: from every good state short of the goal, one helpful actor lowers the
      rank, and until it moves the others neither raise the rank nor change who is helpful. */
  datatype Progress<!S(!new), !M, !A> = Progress(good: S -> bool, goal: S -> bool, rank: S -> nat, helpful: S -> A)

  ghost predicate Sound<S(!new), M(!new), A>(step: (S, M) -> S, actor: M -> A, actors: set<A>, p: Progress<S, M, A>) {
    && (forall s | p.good(s) && !p.goal(s) :: p.helpful(s) in actors)
    && (forall s, m | p.good(s) && !p.goal(s) :: Advances(step, actor, p, s, m))
  }

  ghost predicate Advances<S(!new), M, A>(step: (S, M) -> S, actor: M -> A, p: Progress<S, M, A>, s: S, m: M) {
    var r := step(s, m);
    || p.goal(r)
    || (p.good(r) && (p.rank(r) < p.rank(s)
                      || (actor(m) != p.helpful(s) && p.rank(r) == p.rank(s) && p.helpful(r) == p.helpful(s))))
  }

  /** Under a fair schedule the goal is reached. */
  lemma Reaches<S(!new), M(!new), A(!new)>(step: (S, M) -> S, actor: M -> A, actors: set<A>,
                                                p: Progress<S, M, A>, s: S, schedule: nat -> M)
    requires Sound(step, actor, actors, p) && p.good(s) && Fair(schedule, actor, actors)
    ensures exists n: nat :: p.goal(At(step, s, schedule, n))
  {
    if p.goal(s) {
      assert p.goal(At(step, s, schedule, 0));
    } else {
      assert Moves(schedule, actor, p.helpful(s), 0);
      var k: nat :| actor(schedule(k)) == p.helpful(s);
      ReachesWithin(step, actor, actors, p, s, schedule, k);
    }
  }

  lemma {:induction false} ReachesWithin<S(!new), M(!new), A(!new)>(step: (S, M) -> S, actor: M -> A, actors: set<A>,
                                                                    p: Progress<S, M, A>, s: S,
                                                                    schedule: nat -> M, k: nat)
    requires Sound(step, actor, actors, p) && p.good(s) && Fair(schedule, actor, actors)
    requires actor(schedule(k)) == p.helpful(s)
    ensures exists n: nat :: p.goal(At(step, s, schedule, n))
    decreases p.rank(s), k
  {
    if p.goal(s) {
      assert p.goal(At(step, s, schedule, 0));
    } else {
      var r, later := step(s, schedule(0)), Later(schedule);
      assert Advances(step, actor, p, s, schedule(0));
      LaterIsFair(schedule, actor, actors);
      if p.goal(r) {
        assert At(step, r, later, 0) == r;
        assert p.goal(At(step, s, schedule, 1));
      } else {
        if p.rank(r) < p.rank(s) {
          assert Moves(later, actor, p.helpful(r), 0);
          var j: nat :| actor(later(j)) == p.helpful(r);
          ReachesWithin(step, actor, actors, p, r, later, j);
        } else {
          assert actor(later(k - 1)) == p.helpful(r);
          ReachesWithin(step, actor, actors, p, r, later, k - 1);
        }
        var n: nat :| p.goal(At(step, r, later, n));
        assert At(step, s, schedule, n + 1) == At(step, r, later, n);
      }
    }
  }

  // ---------- Goals that can be missed ----------

  /** The end was reached before the n-th move. */
  ghost predicate EndedBefore<S(!new), M(!new)>(step: (S, M) -> S, s: S, schedule: nat -> M, end: S -> bool, n: nat) {
    exists m: nat :: m < n && end(At(step, s, schedule, m))
  }

  /** Something bad happens, and the end was not reached before it. */
  ghost predicate FailsFirst<S(!new), M(!new)>(step: (S, M) -> S, s: S, schedule: nat -> M,
                                               end: S -> bool, bad: S -> bool) {
    exists n: nat :: bad(At(step, s, schedule, n)) && !EndedBefore(step, s, schedule, end, n)
  }

  ghost predicate Ends<S(!new), M(!new)>(step: (S, M) -> S, s: S, schedule: nat -> M, end: S -> bool) {
    exists n: nat :: end(At(step, s, schedule, n))
  }

  /** What is bad stays bad and is not the end. */
  ghost predicate Irreparable<S(!new), M(!new)>(step: (S, M) -> S, inv: S -> bool, end: S -> bool, bad: S -> bool) {
    forall s, m | inv(s) :: inv(step(s, m)) && (bad(s) ==> bad(step(s, m)) && !end(s))
  }

  lemma {:induction false} AtNext<S(!new), M(!new)>(step: (S, M) -> S, s: S, schedule: nat -> M, n: nat)
    ensures At(step, s, schedule, n + 1) == step(At(step, s, schedule, n), schedule(n))
    decreases n
  {
    if n > 0 {
      AtNext(step, step(s, schedule(0)), Later(schedule), n - 1);
    }
  }

  lemma {:induction false} StaysBad<S(!new), M(!new)>(step: (S, M) -> S, inv: S -> bool, end: S -> bool, bad: S -> bool,
                                                     s: S, schedule: nat -> M, n: nat, k: nat)
    requires Irreparable(step, inv, end, bad) && inv(s) && n <= k
    ensures inv(At(step, s, schedule, k))
    ensures bad(At(step, s, schedule, n)) ==> bad(At(step, s, schedule, k))
    decreases k
  {
    if k > 0 {
      AtNext(step, s, schedule, k - 1);
      if n < k {
        StaysBad(step, inv, end, bad, s, schedule, n, k - 1);
      } else {
        StaysBad(step, inv, end, bad, s, schedule, k - 1, k - 1);
      }
    }
  }

  /** When a rank leads to the end or to something irreparable, then under every fair schedule the end is
      reached if and only if nothing irreparable happens first. */
  lemma EndsUnlessBad<S(!new), M(!new), A(!new)>(step: (S, M) -> S, actor: M -> A, actors: set<A>, p: Progress<S, M, A>,
                                                 inv: S -> bool, end: S -> bool, bad: S -> bool,
                                                 s: S, schedule: nat -> M)
    requires Sound(step, actor, actors, p) && Irreparable(step, inv, end, bad) && Fair(schedule, actor, actors)
    requires forall r :: p.goal(r) <==> end(r) || bad(r)
    requires inv(s) && (p.good(s) || bad(s))
    ensures Ends(step, s, schedule, end) <==> !FailsFirst(step, s, schedule, end, bad)
  {
    if FailsFirst(step, s, schedule, end, bad) {
      var n: nat :| bad(At(step, s, schedule, n)) && !EndedBefore(step, s, schedule, end, n);
      forall k: nat ensures !end(At(step, s, schedule, k)) {
        if n <= k {
          StaysBad(step, inv, end, bad, s, schedule, n, k);
          assert inv(step(At(step, s, schedule, k), schedule(k)));
        }
      }
    } else {
      assert At(step, s, schedule, 0) == s;
      Reaches(step, actor, actors, p, s, schedule);
      var n: nat :| p.goal(At(step, s, schedule, n));
      if bad(At(step, s, schedule, n)) {
        assert EndedBefore(step, s, schedule, end, n);
      }
    }
  }
}
