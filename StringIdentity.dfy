/** The emptiness test of hasSolution as the Java code writes it. There `!=`
    on two `String` values compares object references, not characters, so
    the test is against the one interned `""` literal only: an empty solution
    held in any other `String` object passes as a solution. TaskStore and the
    TaskManager class use the intended comparison of contents. */
module StringIdentity {
  import TaskStore

  /** A Java string: the identity of its object and its characters. */
  datatype JavaString = JavaString(ref: nat, chars: string)

  /** The interned literal `""` that hasSolution compares against. */
  const EmptyLiteral := JavaString(0, "")

  /** hasSolution as written: present, and not the very object `""`. */
  function HasSolutionAsWritten(solutions: map<string, JavaString>, task: string): bool {
    task in solutions && solutions[task].ref != EmptyLiteral.ref
  }

  /** The characters of every stored solution. */
  function Contents(solutions: map<string, JavaString>): map<string, string> {
    map k | k in solutions :: solutions[k].chars
  }

  /** A task whose solution is an empty string held in a second object (as
      `new String("")` makes one) passes the test as written, while the
      intended test rejects it. */
  lemma AsWrittenAcceptsEmptySolution()
    ensures var solutions := map["t" := JavaString(1, "")];
      && HasSolutionAsWritten(solutions, "t")
      && !TaskStore.HasSolution(TaskStore.Store(Contents(solutions), map[]), "t")
  {
  }

  /** When every empty solution is the interned literal and no other object
      shares its identity, the test as written and the intended test agree. */
  lemma AsWrittenAgreesWhenEmptyIsInterned(solutions: map<string, JavaString>, task: string)
    requires forall k :: k in solutions ==> (solutions[k].chars == "" <==> solutions[k].ref == EmptyLiteral.ref)
    ensures HasSolutionAsWritten(solutions, task)
      == TaskStore.HasSolution(TaskStore.Store(Contents(solutions), map[]), task)
  {
  }
}
