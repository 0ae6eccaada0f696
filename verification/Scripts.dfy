/** How the sandbox runs a script (lib/sandbox.ts): from the start every time, reading the device as it
    was at the revision the script has reached, until it commits past the newest one. */
module Scripts {
  import opened VersionedMaps

  /** What a script asks of its sandbox; `Declare` also stands for `clear`, which leaves the run
      uncommitted in the same way. */
  datatype Call<Q> = Declare | Read(query: Q) | Commit | Extension(args: string) | Return

  datatype Reply<R> = Unit | Value(result: R) | ExtensionValue(text: string)

  /** A deterministic script: its next call depends only on the replies so far. */
  type Script<!Q, !R> = seq<Reply<R>> -> Call<Q>

  datatype Status = Running | Suspended | WaitsForExtension | Returned

  datatype Exec<R> = Exec(status: Status, revision: nat, uncommitted: bool, replies: seq<Reply<R>>)

  /** What a run depends on. `eval` answers a query from the device as seen at one revision. */
  datatype World<!K, !V, !Q, R> = World(device: Store<K, V>, extensions: map<(nat, string), string>,
                                       eval: (map<K, V>, Q) -> R)

  /** `commit()`: the run is suspended when it goes past the newest revision, and otherwise goes on. */
  function AfterCommit<R>(x: Exec<R>, maxRevision: nat, reply: seq<Reply<R>>): Exec<R> {
    if x.revision == maxRevision then Exec(Suspended, x.revision + 1, false, x.replies)
    else Exec(Running, x.revision + 1, false, x.replies + reply)
  }

  ghost function StepScript<K, V, Q, R>(script: Script<Q, R>, w: World<K, V, Q, R>, maxRevision: nat,
      x: Exec<R>): Exec<R> {
    if !x.status.Running? then x
    else
      match script(x.replies)
      case Declare => x.(uncommitted := true, replies := x.replies + [Unit])
      case Commit => AfterCommit(x, maxRevision, [Unit])
      case Return => x.(status := Returned)
      case Extension(args) =>
        if (x.revision, args) in w.extensions then
          x.(replies := x.replies + [ExtensionValue(w.extensions[(x.revision, args)])])
        else x.(status := WaitsForExtension)
      case Read(query) =>
        if x.uncommitted then AfterCommit(x, maxRevision, [])
        else x.(replies := x.replies + [Value(w.eval(View(w.device, x.revision), query))])
  }

  /** The first `n` steps of a run between two revisions. */
  ghost function RunScript<K, V, Q, R>(script: Script<Q, R>, w: World<K, V, Q, R>, start: nat, maxRevision: nat,
      n: nat): Exec<R> {
    if n == 0 then Exec(Running, start, false, [])
    else StepScript(script, w, maxRevision, RunScript(script, w, start, maxRevision, n - 1))
  }

  ghost predicate SameUpTo<K, V>(a: Store<K, V>, b: Store<K, V>, revision: nat) {
    forall r: nat :: r <= revision ==> View(a, r) == View(b, r)
  }

  /** Everything that could be read or asked at or below a revision is still answered the same. */
  ghost predicate StillAnswers<K, V, Q, R>(before: World<K, V, Q, R>, after: World<K, V, Q, R>, revision: nat) {
    && SameUpTo(before.device, after.device, revision)
    && before.eval == after.eval
    && forall key <- before.extensions :: key.0 <= revision ==>
         key in after.extensions && after.extensions[key] == before.extensions[key]
  }

  /** A second run with a newer limit goes through everything the first one did: it is in the same
      state after as many steps, until the first one stops to wait. */
  lemma {:induction false} RunRepeats<K, V, Q, R>(script: Script<Q, R>, before: World<K, V, Q, R>,
      after: World<K, V, Q, R>, start: nat, max0: nat, max1: nat, n: nat)
    requires start <= max0 <= max1 && StillAnswers(before, after, max0)
    ensures var x, y := RunScript(script, before, start, max0, n), RunScript(script, after, start, max1, n);
      && x.replies <= y.replies
      && (x.status.Running? || x.status.Returned? ==> x == y && x.revision <= max0)
  {
    if n > 0 {
      hide StepScript, StillAnswers;
      RunRepeats(script, before, after, start, max0, max1, n - 1);
      var x, y := RunScript(script, before, start, max0, n - 1), RunScript(script, after, start, max1, n - 1);
      if x.status.Running? {
        StepRepeats(script, before, after, max0, max1, x);
      } else {
        StepWaits(script, before, max0, x);
        StepExtends(script, after, max1, y);
      }
    }
  }

  lemma StepRepeats<K, V, Q, R>(script: Script<Q, R>, before: World<K, V, Q, R>, after: World<K, V, Q, R>, max0: nat,
      max1: nat, x: Exec<R>)
    requires max0 <= max1 && StillAnswers(before, after, max0) && x.revision <= max0
    ensures var a, b := StepScript(script, before, max0, x), StepScript(script, after, max1, x);
      && a.replies <= b.replies
      && (a.status.Running? || a.status.Returned? ==> a == b && a.revision <= max0)
  {
    assert View(before.device, x.revision) == View(after.device, x.revision);
  }

  lemma StepWaits<K, V, Q, R>(script: Script<Q, R>, w: World<K, V, Q, R>, maxRevision: nat, x: Exec<R>)
    requires !x.status.Running?
    ensures StepScript(script, w, maxRevision, x) == x
  {}

  lemma StepExtends<K, V, Q, R>(script: Script<Q, R>, w: World<K, V, Q, R>, maxRevision: nat, x: Exec<R>)
    ensures x.replies <= StepScript(script, w, maxRevision, x).replies
  {}

  /** A run does not go beyond its newest revision: it is suspended exactly one above it. */
  lemma {:induction false} RunStopsAbove<K, V, Q, R>(script: Script<Q, R>, w: World<K, V, Q, R>, start: nat,
      maxRevision: nat, n: nat)
    requires start <= maxRevision
    ensures var x := RunScript(script, w, start, maxRevision, n);
      && (x.status.Suspended? ==> x.revision == maxRevision + 1)
      && (!x.status.Suspended? ==> start <= x.revision <= maxRevision)
  {
    if n > 0 { RunStopsAbove(script, w, start, maxRevision, n - 1); }
  }

  /** A call of an extension waits exactly if its answer is not there yet; and the run that has the answer, and
      could not read anything else before, goes on from there with it. */
  lemma AnswerIsGiven<K, V, Q, R>(script: Script<Q, R>, before: World<K, V, Q, R>, after: World<K, V, Q, R>,
      start: nat, max0: nat, max1: nat, n: nat, args: string)
    requires start <= max0 <= max1 && StillAnswers(before, after, max0)
    requires RunScript(script, before, start, max0, n).status.Running?
    requires script(RunScript(script, before, start, max0, n).replies) == Extension(args)
    ensures var x, y := RunScript(script, before, start, max0, n), RunScript(script, after, start, max1, n + 1);
      && (RunScript(script, before, start, max0, n + 1).status.WaitsForExtension? <==>
           (x.revision, args) !in before.extensions)
      && ((x.revision, args) in after.extensions ==>
           y == x.(replies := x.replies + [ExtensionValue(after.extensions[(x.revision, args)])]))
  {
    RunRepeats(script, before, after, start, max0, max1, n);
  }

  /** What is read is never older than what was declared before: a script that has declared something reads
      nothing more at that revision, and is first answered when it comes to a later one. */
  ghost predicate HasDeclared<K, V, Q, R>(script: Script<Q, R>, w: World<K, V, Q, R>, start: nat, maxRevision: nat,
      n: nat, revision: nat) {
    exists m: nat :: m < n && DeclaresAt(script, RunScript(script, w, start, maxRevision, m), revision)
  }

  predicate DeclaresAt<Q, R>(script: Script<Q, R>, x: Exec<R>, revision: nat) {
    x.status.Running? && x.revision == revision && script(x.replies) == Declare
  }

  lemma ReadsAreFresh<K, V, Q, R>(script: Script<Q, R>, w: World<K, V, Q, R>, start: nat, maxRevision: nat, n: nat,
      query: Q)
    requires RunScript(script, w, start, maxRevision, n).status.Running?
    requires script(RunScript(script, w, start, maxRevision, n).replies) == Read(query)
    ensures var x, y := RunScript(script, w, start, maxRevision, n), RunScript(script, w, start, maxRevision, n + 1);
      if HasDeclared(script, w, start, maxRevision, n, x.revision)
      then y.revision == x.revision + 1 && y.replies == x.replies && (y.status.Running? ==> !y.uncommitted)
      else y == x.(replies := x.replies + [Value(w.eval(View(w.device, x.revision), query))])
  {
    DeclaredIsUncommitted(script, w, start, maxRevision, n);
  }

  lemma {:induction false} DeclaredIsUncommitted<K, V, Q, R>(script: Script<Q, R>, w: World<K, V, Q, R>, start: nat,
      maxRevision: nat, n: nat)
    ensures var x := RunScript(script, w, start, maxRevision, n);
      && (x.status.Running? ==> (x.uncommitted <==> HasDeclared(script, w, start, maxRevision, n, x.revision)))
      && forall r: nat :: HasDeclared(script, w, start, maxRevision, n, r) ==> r <= x.revision
  {
    if n > 0 {
      hide StepScript, DeclaresAt;
      var x, y := RunScript(script, w, start, maxRevision, n - 1), RunScript(script, w, start, maxRevision, n);
      DeclaredIsUncommitted(script, w, start, maxRevision, n - 1);
      StepDeclares(script, w, maxRevision, x);
      DeclaredGrows(script, w, start, maxRevision, n - 1);
      forall r: nat | HasDeclared(script, w, start, maxRevision, n, r) ensures r <= y.revision {
        DeclaresOnlyThere(script, x, r);
      }
      DeclaresOnlyThere(script, x, y.revision);
      assert HasDeclared(script, w, start, maxRevision, n, y.revision) <==>
        HasDeclared(script, w, start, maxRevision, n - 1, y.revision) || DeclaresAt(script, x, y.revision);
    } else {
      assert forall r: nat :: !HasDeclared(script, w, start, maxRevision, 0, r);
    }
  }

  lemma DeclaresOnlyThere<Q, R>(script: Script<Q, R>, x: Exec<R>, r: nat)
    ensures DeclaresAt(script, x, r) ==> r == x.revision
  {}

  lemma StepDeclares<K, V, Q, R>(script: Script<Q, R>, w: World<K, V, Q, R>, maxRevision: nat, x: Exec<R>)
    ensures var y := StepScript(script, w, maxRevision, x);
      && x.revision <= y.revision
      && (y.status.Running? ==> x.status.Running?)
      && (y.status.Running? ==> (y.uncommitted <==>
           y.revision == x.revision && (x.uncommitted || DeclaresAt(script, x, x.revision))))
  {}

  lemma DeclaredGrows<K, V, Q, R>(script: Script<Q, R>, w: World<K, V, Q, R>, start: nat, maxRevision: nat, n: nat)
    ensures forall r: nat :: HasDeclared(script, w, start, maxRevision, n + 1, r) <==>
      HasDeclared(script, w, start, maxRevision, n, r)
      || DeclaresAt(script, RunScript(script, w, start, maxRevision, n), r)
  {
    hide DeclaresAt, RunScript;
    forall r: nat ensures HasDeclared(script, w, start, maxRevision, n + 1, r) <==>
      HasDeclared(script, w, start, maxRevision, n, r)
      || DeclaresAt(script, RunScript(script, w, start, maxRevision, n), r)
    {
      if DeclaresAt(script, RunScript(script, w, start, maxRevision, n), r) {
        assert HasDeclared(script, w, start, maxRevision, n + 1, r);
      }
    }
  }
}
