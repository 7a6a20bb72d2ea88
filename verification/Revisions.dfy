/** MVCC revisions: a main number per transaction and a sub number per operation in it. */
module Revisions {
  datatype Revision = Revision(main: int, sub: int) {
    predicate LessThan(o: Revision) {
      main < o.main || (main == o.main && sub < o.sub)
    }

    predicate AtMost(o: Revision) {
      !o.LessThan(this)
    }
  }

  const Zero := Revision(0, 0)

  predicate StrictlyAscending(rs: seq<Revision>) {
    forall i, j :: 0 <= i < j < |rs| ==> rs[i].LessThan(rs[j])
  }

  /** r is the greatest element of rs at or below `at`; Zero when there is none. */
  predicate IsLatest(rs: seq<Revision>, at: Revision, r: Revision) {
    if exists i :: 0 <= i < |rs| && rs[i].AtMost(at) then
      r in rs && r.AtMost(at) && forall i :: 0 <= i < |rs| && rs[i].AtMost(at) ==> rs[i].AtMost(r)
    else
      r == Zero
  }
}
