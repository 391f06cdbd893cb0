/** `HgBranchHead`: a branch name with its head commit, compared by value. */
module BranchHeads {
  import opened Wrappers
  import opened Commits

  /** A branch head whose commit has been resolved. */
  datatype BranchHead = BranchHead(name: string, commit: Commit)

  /** What `Equals(object)` can be handed: null, a branch head, or an object of another type. */
  datatype Object = Null | Head(head: BranchHead) | Other

  /**
   * `Equals(HgBranchHead other)`: `sameObject` says whether `other` is this very
   * reference. The answer is value equality: the same name and the same commit.
   */
  function Equals(h: BranchHead, other: Option<BranchHead>, sameObject: bool): (r: bool)
    requires sameObject ==> other == Some(h)
    ensures r <==> other == Some(h)
    ensures r <==> other.Some? && other.value.name == h.name && other.value.commit == h.commit
  {
    if other.None? then false
    else if sameObject then true
    else h.name == other.value.name && h.commit == other.value.commit
  }

  /** `Equals(object obj)`: false for null and for anything that is not a branch head. */
  function EqualsObject(h: BranchHead, obj: Object, sameObject: bool): (r: bool)
    requires sameObject ==> obj == Head(h)
    ensures r <==> obj == Head(h)
  {
    if obj.Null? then false
    else if sameObject then true
    else obj.Head? && Equals(h, Some(obj.head), false)
  }

  /**
   * `operator ==`, through the static `object.Equals(left, right)`: the same reference
   * or both null is true, one null is false, otherwise the virtual `Equals(object)`.
   */
  function OperatorEquals(left: Option<BranchHead>, right: Option<BranchHead>, sameObject: bool): (r: bool)
    requires sameObject ==> left == right
    ensures r <==> left == right
  {
    if sameObject || (left.None? && right.None?) then true
    else if left.None? || right.None? then false
    else EqualsObject(left.value, Head(right.value), false)
  }

  /** `operator !=`. */
  function OperatorNotEquals(left: Option<BranchHead>, right: Option<BranchHead>, sameObject: bool): (r: bool)
    requires sameObject ==> left == right
    ensures r <==> left != right
  {
    !OperatorEquals(left, right, sameObject)
  }

  /** `==` agrees with `Equals` on a non-null left operand, and `!=` is its negation. */
  lemma OperatorsAgreeWithEquals(h: BranchHead, other: Option<BranchHead>)
    ensures OperatorEquals(Some(h), other, false) == Equals(h, other, false)
    ensures OperatorNotEquals(Some(h), other, false) == !Equals(h, other, false)
  {
  }

  /** Both operators are symmetric in their operands. */
  lemma OperatorEqualsSymmetric(left: Option<BranchHead>, right: Option<BranchHead>)
    ensures OperatorEquals(left, right, false) == OperatorEquals(right, left, false)
  {
  }
}
