/** `CombinedExceptionMapperLookup`: the exception mappers of all contributed lookups,
    collected into one set. */
module ExceptionMappers {

  /** A `JsonApiExceptionMapper`, by identity. */
  type ExceptionMapper = nat

  /** A contributed `ExceptionMapperLookup` and the mappers it supplies. */
  datatype ExceptionMapperLookup = ExceptionMapperLookup(exceptionMappers: set<ExceptionMapper>)

  /** The union of the lookups' mappers. */
  function UnionOf(lookups: seq<ExceptionMapperLookup>): (s: set<ExceptionMapper>)
    ensures forall m :: m in s <==> exists i :: 0 <= i < |lookups| && m in lookups[i].exceptionMappers
    decreases |lookups|
  {
    if lookups == [] then {}
    else UnionOf(lookups[..|lookups| - 1]) + lookups[|lookups| - 1].exceptionMappers
  }

  /** `getExceptionMappers`: fills a set with every lookup's mappers. */
  method CombinedExceptionMappers(lookups: seq<ExceptionMapperLookup>) returns (s: set<ExceptionMapper>)
    ensures s == UnionOf(lookups)
  {
    s := {};
    for k := 0 to |lookups|
      invariant s == UnionOf(lookups[..k])
    {
      assert lookups[..k + 1][..k] == lookups[..k];
      s := s + lookups[k].exceptionMappers;
    }
    assert lookups[..|lookups|] == lookups;
  }

  /** The combined set does not depend on the order in which modules contributed their
      lookups, nor on how often a lookup was contributed. */
  lemma UnionIgnoresOrderAndDuplicates(lookups: seq<ExceptionMapperLookup>, others: seq<ExceptionMapperLookup>)
    requires forall l :: l in lookups <==> l in others
    ensures UnionOf(lookups) == UnionOf(others)
  {
    forall m | m in UnionOf(lookups) ensures m in UnionOf(others) {
      var i :| 0 <= i < |lookups| && m in lookups[i].exceptionMappers;
      assert lookups[i] in others;
    }
    forall m | m in UnionOf(others) ensures m in UnionOf(lookups) {
      var i :| 0 <= i < |others| && m in others[i].exceptionMappers;
      assert others[i] in lookups;
    }
  }
}
