/**
 * The dependency-list helpers the game crate uses when wiring its systems:
 * a list of system names that is included only under a condition, and a
 * mandatory list extended by such an optional one.
 */
module GameDependencies {

  /** `optional_dependencies`: the given names when the condition holds, none otherwise. */
  function OptionalDependencies(dependencies: seq<string>, condition: bool): (r: seq<string>)
    ensures condition ==> r == dependencies
    ensures !condition ==> |r| == 0
  {
    if condition then dependencies else []
  }

  /**
   * `dependencies_with_optional`: the mandatory names, in order, followed by
   * the optional names when the condition holds.
   */
  function DependenciesWithOptional(mandatory: seq<string>, condition: bool, optional: seq<string>): (r: seq<string>)
    ensures |r| == |mandatory| + (if condition then |optional| else 0)
    ensures r[..|mandatory|] == mandatory
    ensures r[|mandatory|..] == OptionalDependencies(optional, condition)
    ensures forall name :: name in r <==> name in mandatory || (condition && name in optional)
  {
    mandatory + OptionalDependencies(optional, condition)
  }

  /** With the condition false only the mandatory names remain; with it true, nothing is lost. */
  lemma DependenciesWithOptionalCases(mandatory: seq<string>, optional: seq<string>)
    ensures DependenciesWithOptional(mandatory, false, optional) == mandatory
    ensures DependenciesWithOptional(mandatory, true, optional) == mandatory + optional
  {
    assert mandatory + [] == mandatory;
  }

  /** Extending twice under the same condition is extending once by both optional lists. */
  lemma DependenciesWithOptionalTwice(mandatory: seq<string>, condition: bool, first: seq<string>, second: seq<string>)
    ensures DependenciesWithOptional(DependenciesWithOptional(mandatory, condition, first), condition, second)
              == DependenciesWithOptional(mandatory, condition, first + second)
  {
    if condition {
      assert (mandatory + first) + second == mandatory + (first + second);
    } else {
      assert mandatory + [] + [] == mandatory + [];
    }
  }
}
