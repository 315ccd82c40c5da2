/** Copying a tree in preorder, with a stack of the copies that still wait for children. */
module TreeCopy {

  /** The original, which is only read. */
  datatype Tree<T> = Tree(value: T, kids: seq<Tree<T>>)

  class TreeNode<U(0)> {
    const value: U
    var parent: TreeNode?<U>
    var children: seq<TreeNode<U>>

    constructor (value: U)
      ensures this.value == value && parent == null && children == []
    {
      this.value, parent, children := value, null, [];
    }

    method AddChild(child: TreeNode<U>)
      requires child != this && child.parent == null
      modifies this`children, child`parent
      ensures children == old(children) + [child] && child.parent == this
    {
      child.parent := this;
      children := children + [child];
    }
  }

  ghost predicate NoneTwice<A>(s: seq<A>) {
    forall i, j :: 0 <= i < j < |s| ==> s[i] != s[j]
  }

  /** The nodes below c, all in repr, have the shape of t and the images of its values; every child
      knows its parent, and no node is in two places. */
  ghost predicate IsCopy<T, U(0)>(c: TreeNode<U>, t: Tree<T>, f: T -> U, parent: TreeNode?<U>, repr: set<object>)
    reads repr
    decreases t
  {
    && c in repr && c.value == f(t.value) && c.parent == parent
    && |c.children| == |t.kids| && NoneTwice(c.children)
    && forall i :: 0 <= i < |t.kids| ==> IsCopy(c.children[i], t.kids[i], f, c, repr - {c})
  }

  lemma {:induction false} CopyInLarger<T, U(0)>(c: TreeNode<U>, t: Tree<T>, f: T -> U, parent: TreeNode?<U>, repr: set<object>, larger: set<object>)
    requires IsCopy(c, t, f, parent, repr) && repr <= larger
    ensures IsCopy(c, t, f, parent, larger)
    decreases t
  {
    forall i | 0 <= i < |t.kids| ensures IsCopy(c.children[i], t.kids[i], f, c, larger - {c}) {
      CopyInLarger(c.children[i], t.kids[i], f, c, repr - {c}, larger - {c});
    }
  }

  /** What a stack does when one of childCount children has been added to the parent on its top. */
  ghost function AfterChild<A>(stack: seq<A>, children: nat, childCount: nat): seq<A> {
    if childCount > 1 && children == childCount && stack != [] then stack[..|stack| - 1] else stack
  }

  class TreeMapper<T, U(0)> {
    const mapFn: T -> U
    var copyParentStack: seq<TreeNode<U>>
    var nextParent: TreeNode?<U>

    constructor (mapFn: T -> U)
      ensures this.mapFn == mapFn && copyParentStack == [] && nextParent == null
    {
      this.mapFn, copyParentStack, nextParent := mapFn, [], null;
    }

    ghost predicate NextIsTop()
      reads this
    {
      nextParent == if copyParentStack == [] then null else copyParentStack[|copyParentStack| - 1]
    }

    /** Takes a copy off the stack once it has all its children. */
    method CleanUpParentStack(childCount: nat, clone: TreeNode<U>)
      requires NoneTwice(copyParentStack) && (childCount > 1 ==> copyParentStack != [] && copyParentStack[|copyParentStack| - 1] == clone)
      requires childCount <= 1 ==> clone !in copyParentStack
      modifies this`copyParentStack
      ensures copyParentStack == AfterChild(old(copyParentStack), |clone.children|, childCount)
    {
      if childCount == |clone.children| {
        var cloneIndex := 0;
        while cloneIndex < |copyParentStack| && copyParentStack[cloneIndex] != clone
          invariant cloneIndex <= |copyParentStack| && forall k :: 0 <= k < cloneIndex ==> copyParentStack[k] != clone
        {
          cloneIndex := cloneIndex + 1;
        }
        if cloneIndex < |copyParentStack| {
          copyParentStack := copyParentStack[..cloneIndex] + copyParentStack[cloneIndex + 1..];
        }
      }
    }

    /** Visits a subtree whose parent's copy is nextParent; siblings is the number of the parent's children. */
    method Visit(t: Tree<T>, siblings: nat, parent: TreeNode<U>) returns (newNode: TreeNode<U>, ghost repr: set<object>)
      requires nextParent == parent && |parent.children| < siblings && NoneTwice(copyParentStack)
      requires if siblings > 1 then copyParentStack != [] && copyParentStack[|copyParentStack| - 1] == parent else parent !in copyParentStack
      modifies this, parent`children
      ensures fresh(repr) && IsCopy(newNode, t, mapFn, parent, repr)
      ensures parent.children == old(parent.children) + [newNode]
      ensures copyParentStack == AfterChild(old(copyParentStack), |parent.children|, siblings) && NextIsTop()
      decreases t, 1
    {
      newNode := new TreeNode(mapFn(t.value));
      nextParent.AddChild(newNode);
      CleanUpParentStack(siblings, nextParent);
      repr := Descend(t, newNode);
    }

    /** The part of the visit after the new node has been linked. */
    method Descend(t: Tree<T>, newNode: TreeNode<U>) returns (ghost repr: set<object>)
      requires newNode.children == [] && newNode.value == mapFn(t.value) && newNode !in copyParentStack && NoneTwice(copyParentStack)
      modifies this, newNode`children
      ensures newNode in repr && fresh(repr - {newNode}) && IsCopy(newNode, t, mapFn, newNode.parent, repr)
      ensures copyParentStack == old(copyParentStack) && NextIsTop()
      decreases t, 0
    {
      var stack := copyParentStack;
      if |t.kids| > 1 { copyParentStack := copyParentStack + [newNode]; }
      nextParent := if t.kids != [] then newNode else if copyParentStack == [] then null else copyParentStack[|copyParentStack| - 1];
      repr := {};
      for i := 0 to |t.kids|
        invariant |newNode.children| == i && NoneTwice(newNode.children)
        invariant copyParentStack == if |t.kids| > 1 && i < |t.kids| then stack + [newNode] else stack
        invariant if i < |t.kids| then nextParent == newNode else NextIsTop()
        invariant fresh(repr) && newNode !in repr && forall k :: 0 <= k < i ==> newNode.children[k] in repr
        invariant forall k :: 0 <= k < i ==> IsCopy(newNode.children[k], t.kids[k], mapFn, newNode, repr)
      {
        ghost var before := repr;
        var child, more := Visit(t.kids[i], |t.kids|, newNode);
        repr := repr + more;
        forall k | 0 <= k < |newNode.children| ensures IsCopy(newNode.children[k], t.kids[k], mapFn, newNode, repr) {
          CopyInLarger(newNode.children[k], t.kids[k], mapFn, newNode, if k < i then before else more, repr);
        }
      }
      repr := repr + {newNode};
      assert repr - {newNode} + {newNode} == repr;
    }

    /** The copy of the whole tree. */
    method Map(origTree: Tree<T>) returns (copyRoot: TreeNode<U>, ghost repr: set<object>)
      requires copyParentStack == []
      modifies this
      ensures fresh(repr) && IsCopy(copyRoot, origTree, mapFn, null, repr)
      ensures copyParentStack == []
    {
      copyRoot := new TreeNode(mapFn(origTree.value));
      repr := Descend(origTree, copyRoot);
    }
  }
}
