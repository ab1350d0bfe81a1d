/**
 Changes that one side applied and the other did not keep: commits rolled back
 after their entry was written, staged changes copied and then undone. The theorem
 says when playing all of them ends where playing only the kept ones ends.
 */
module Orphans {
  import opened Model
  import opened Records
  import opened FlatStore

  /** A change and whether the primary took it back. */
  datatype Mark = Mark(change: Change, lost: bool)

  function AllOf(marks: seq<Mark>): seq<Change> {
    if marks == [] then [] else AllOf(marks[..|marks| - 1]) + [marks[|marks| - 1].change]
  }

  function KeptOf(marks: seq<Mark>): seq<Change> {
    if marks == [] then []
    else
      var front, last := KeptOf(marks[..|marks| - 1]), marks[|marks| - 1];
      if last.lost then front else front + [last.change]
  }

  function AsKept(log: seq<Change>): seq<Mark> {
    if log == [] then [] else AsKept(log[..|log| - 1]) + [Mark(log[|log| - 1], false)]
  }

  /** The last mark that writes a key. */
  function LastWriter(marks: seq<Mark>, k: Key): Option<Mark> {
    if marks == [] then None
    else
      var last := marks[|marks| - 1];
      if KeyOf(last.change) == k then Some(last) else LastWriter(marks[..|marks| - 1], k)
  }

  /** What a change leaves at its key. */
  function Effect(ch: Change): Option<uint32> {
    if ch.kind == DELETE then None else Some(ch.record.ttl)
  }

  predicate LosesLast(marks: seq<Mark>, k: Key) {
    LastWriter(marks, k).Some? && LastWriter(marks, k).value.lost
  }

  /** Wherever a lost change was the last to write a key, the kept changes end with the same value there. */
  ghost predicate Healed(m: Flat, marks: seq<Mark>) {
    forall k :: LosesLast(marks, k) ==> At(Play(m, KeptOf(marks)), k) == Effect(LastWriter(marks, k).value.change)
  }

  // The theorem

  lemma {:induction false} StepAt(m: Flat, ch: Change, k: Key)
    ensures At(Step(m, ch), k) == if KeyOf(ch) == k then Effect(ch) else At(m, k)
  {
  }

  lemma {:induction false} PlayedAt(m: Flat, marks: seq<Mark>, k: Key)
    ensures At(Play(m, AllOf(marks)), k)
            == match LastWriter(marks, k) case None => At(m, k) case Some(mark) => Effect(mark.change)
    ensures !LosesLast(marks, k) ==> At(Play(m, KeptOf(marks)), k) == At(Play(m, AllOf(marks)), k)
  {
    if marks != [] {
      var front, last := marks[..|marks| - 1], marks[|marks| - 1];
      PlayedAt(m, front, k);
      PlaySnoc(m, AllOf(front), last.change);
      if !last.lost {
        PlaySnoc(m, KeptOf(front), last.change);
      }
      StepAt(Play(m, AllOf(front)), last.change, k);
      StepAt(Play(m, KeptOf(front)), last.change, k);
    }
  }

  /**
   For any interleaving of kept and lost changes: playing all of them gives what
   playing the kept ones gives exactly when every key that a lost change was the
   last to write ends with that change's own effect anyway.
   */
  lemma {:induction false} LostChanges(m: Flat, marks: seq<Mark>)
    ensures Play(m, AllOf(marks)) == Play(m, KeptOf(marks)) <==> Healed(m, marks)
  {
    forall k
      ensures At(Play(m, AllOf(marks)), k) == At(Play(m, KeptOf(marks)), k)
              <==> (LosesLast(marks, k) ==> At(Play(m, KeptOf(marks)), k) == Effect(LastWriter(marks, k).value.change))
    {
      PlayedAt(m, marks, k);
    }
    if Healed(m, marks) {
      SameFlat(Play(m, AllOf(marks)), Play(m, KeptOf(marks)));
    }
  }

  // Lists of marks

  lemma {:induction false} KeptConcat(a: seq<Mark>, b: seq<Mark>)
    ensures KeptOf(a + b) == KeptOf(a) + KeptOf(b)
    ensures AllOf(a + b) == AllOf(a) + AllOf(b)
  {
    if b == [] {
      assert a + b == a;
    } else {
      var front, last := b[..|b| - 1], b[|b| - 1];
      KeptConcat(a, front);
      assert (a + b)[..|a + b| - 1] == a + front;
      assert KeptOf(a) + (KeptOf(front) + [last.change]) == (KeptOf(a) + KeptOf(front)) + [last.change];
    }
  }

  lemma {:induction false} KeptSnoc(marks: seq<Mark>, mark: Mark)
    ensures KeptOf(marks + [mark]) == if mark.lost then KeptOf(marks) else KeptOf(marks) + [mark.change]
    ensures AllOf(marks + [mark]) == AllOf(marks) + [mark.change]
    ensures forall k ::
              LastWriter(marks + [mark], k) == if KeyOf(mark.change) == k then Some(mark) else LastWriter(marks, k)
  {
    assert (marks + [mark])[..|marks|] == marks;
  }

  lemma {:induction false} AsKeptKeeps(log: seq<Change>)
    ensures KeptOf(AsKept(log)) == log && AllOf(AsKept(log)) == log
    ensures forall k :: !LosesLast(AsKept(log), k)
  {
    if log != [] {
      var front, last := log[..|log| - 1], log[|log| - 1];
      AsKeptKeeps(front);
      assert AsKept(log) == AsKept(front) + [Mark(last, false)] && log == front + [last];
      KeptSnoc(AsKept(front), Mark(last, false));
      forall k ensures !LosesLast(AsKept(log), k) {
        assert !LosesLast(AsKept(front), k);
      }
    }
  }

  /** Marks after others decide the keys they write. */
  lemma {:induction false} LastWriterConcat(a: seq<Mark>, b: seq<Mark>, k: Key)
    ensures LastWriter(a + b, k) == if LastWriter(b, k).Some? then LastWriter(b, k) else LastWriter(a, k)
  {
    if b == [] {
      assert a + b == a;
    } else {
      var front, last := b[..|b| - 1], b[|b| - 1];
      LastWriterConcat(a, front, k);
      assert (a + b)[..|a + b| - 1] == a + front;
    }
  }

  lemma {:induction false} AllAcceptedMarks(marks: seq<Mark>)
    ensures AllAccepted(AllOf(marks)) <==> forall i :: 0 <= i < |marks| ==> Accepted(marks[i].change)
  {
    if marks != [] {
      var front, last := marks[..|marks| - 1], marks[|marks| - 1];
      AllAcceptedMarks(front);
      var all := AllOf(marks);
      assert all[..|all| - 1] == AllOf(front);
      assert forall i :: 0 <= i < |AllOf(front)| ==> all[i] == AllOf(front)[i];
      assert all[|all| - 1] == last.change;
      assert forall i :: 0 <= i < |front| ==> front[i] == marks[i];
    }
  }
}
