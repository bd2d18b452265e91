// PatchAccepter: the bookkeeping of requested nano-steps shared by all
// patch accepters. The requested nano-steps are a set field that
// `pushRequest` grows; the two queries only read it.

module PatchAccepters {

  /** The range of C++ `std::size_t` on a 64-bit target. */
  const SizeMax: int := 0xFFFF_FFFF_FFFF_FFFF
  type SizeT = x: int | 0 <= x <= SizeMax

  /** `(std::size_t)-1`, the answer of `nextRequiredNanoStep` when nothing is requested. */
  const NoRequest: SizeT := SizeMax

  /** `m` is the smallest element of `s`, i.e. what `*s.begin()` yields for a `std::set`. */
  ghost predicate IsMin(m: int, s: set<SizeT>)
  {
    m in s && forall y :: y in s ==> m <= y
  }

  /** Every non-empty set of nano-steps has a smallest element. */
  lemma {:induction false} HasMin(s: set<SizeT>)
    requires s != {}
    ensures exists m :: IsMin(m, s)
    decreases |s|
  {
    var x :| x in s;
    var rest := s - {x};
    if rest == {} {
      assert s == {x};
      assert IsMin(x, s);
    } else {
      HasMin(rest);
      var m :| IsMin(m, rest);
      assert forall y :: y in s ==> y == x || y in rest;
      if x < m {
        assert IsMin(x, s);
      } else {
        assert IsMin(m, s);
      }
    }
  }

  /** The smallest element is unique. */
  lemma MinUnique(a: int, b: int, s: set<SizeT>)
    requires IsMin(a, s) && IsMin(b, s)
    ensures a == b
  {
    assert a <= b && b <= a;
  }

  /** Outcome of `checkNanoStepPut`: accept or ignore the patch, or the logic_error thrown when an
      expected nano-step was left out. */
  datatype PutCheck = Checked(accept: bool) | ExpectedNanoStepLeftOut

  class PatchAccepter {
    var requestedNanoSteps: set<SizeT>

    constructor ()
      ensures requestedNanoSteps == {}
    {
      requestedNanoSteps := {};
    }

    /** `setRegion`: deliberately empty, since most accepters do not need the region. */
    method SetRegion<R>(region: R)
      ensures requestedNanoSteps == old(requestedNanoSteps)
    {
    }

    /** `pushRequest`: adds a nano-step to the requests; a duplicate leaves them unchanged. */
    method PushRequest(nanoStep: SizeT)
      modifies this
      ensures requestedNanoSteps == old(requestedNanoSteps) + {nanoStep}
      ensures nanoStep in old(requestedNanoSteps) ==> requestedNanoSteps == old(requestedNanoSteps)
    {
      requestedNanoSteps := requestedNanoSteps + {nanoStep};
    }

    /** The smallest pending request (`*requestedNanoSteps.begin()`). */
    method FirstRequest() returns (m: SizeT)
      requires requestedNanoSteps != {}
      ensures IsMin(m, requestedNanoSteps)
    {
      HasMin(requestedNanoSteps);
      m :| m in requestedNanoSteps && forall y :: y in requestedNanoSteps ==> m <= y;
    }

    /** `nextRequiredNanoStep`: `(size_t)-1` if nothing is pending, else the smallest pending request. */
    method NextRequiredNanoStep() returns (r: SizeT)
      ensures requestedNanoSteps == {} ==> r == NoRequest
      ensures requestedNanoSteps != {} ==> IsMin(r, requestedNanoSteps)
    {
      if requestedNanoSteps == {} {
        return NoRequest;
      }
      r := FirstRequest();
    }

    /** `checkNanoStepPut`: ignores a patch if nothing is pending or it is older than the first
        request, accepts exactly the first request, and throws for a newer one. */
    method CheckNanoStepPut(nanoStep: SizeT) returns (r: PutCheck)
      ensures r == Checked(false) <==>
                requestedNanoSteps == {} || exists m :: IsMin(m, requestedNanoSteps) && nanoStep < m
      ensures r == Checked(true) <==> IsMin(nanoStep, requestedNanoSteps)
      ensures r == ExpectedNanoStepLeftOut <==>
                exists m :: IsMin(m, requestedNanoSteps) && nanoStep > m
    {
      if requestedNanoSteps == {} {
        return Checked(false);
      }
      var m := FirstRequest();
      if nanoStep < m {
        return Checked(false);
      }
      if nanoStep > m {
        return ExpectedNanoStepLeftOut;
      }
      forall m' | IsMin(m', requestedNanoSteps) ensures m' == m {
        MinUnique(m', m, requestedNanoSteps);
      }
      return Checked(true);
    }
  }

  /** Requests pushed in any order are served smallest first: after pushing `a` and then `b` onto an
      empty accepter, the first accepted nano-step is the smaller of the two. */
  method ServesSmallestFirst(a: SizeT, b: SizeT) returns (first: SizeT)
    ensures first == if a <= b then a else b
  {
    var p := new PatchAccepter();
    p.PushRequest(a);
    p.PushRequest(b);
    first := p.NextRequiredNanoStep();
    var ok := p.CheckNanoStepPut(first);
    assert ok == Checked(true);
  }
}
