/** The oSIP positional list (osip_list.c): a singly-linked chain of nodes
    with an element counter, index-based add, get and remove, the free-all
    and clone helpers, and a cursor that can unlink the node it stands on.
    The ghost sequence `nodes` names the chain from the head and `Contents`
    the elements it holds; `Valid` ties both to the links and the counter. */
module OsipList {
  import opened CArith

  /** Result codes of osip_port.h. */
  const Success := 0
  const UndefinedError := -1
  const BadParameter := -2
  const NoMem := -4

  /** `__node_t`: one link of the chain. */
  class Node<T> {
    var element: T
    var next: Node?<T>

    constructor (e: T, n: Node?<T>)
      ensures element == e && next == n
    {
      element, next := e, n;
    }
  }

  /** `s` with `x` inserted so that it sits at index `k`. */
  function Insert<T>(s: seq<T>, k: int, x: T): (t: seq<T>)
    requires 0 <= k <= |s|
    ensures |t| == |s| + 1 && t[k] == x
    ensures forall i :: 0 <= i < k ==> t[i] == s[i]
    ensures forall i :: k < i < |t| ==> t[i] == s[i - 1]
  {
    s[..k] + [x] + s[k..]
  }

  /** `s` without its element at index `k`. */
  function Delete<T>(s: seq<T>, k: int): (t: seq<T>)
    requires 0 <= k < |s|
    ensures |t| == |s| - 1
    ensures forall i :: 0 <= i < k ==> t[i] == s[i]
    ensures forall i :: k <= i < |t| ==> t[i] == s[i + 1]
  {
    s[..k] + s[k + 1..]
  }

  /** Removing the element just inserted gives the list back. */
  lemma DeleteInsert<T>(s: seq<T>, k: int, x: T)
    requires 0 <= k <= |s|
    ensures Delete(Insert(s, k, x), k) == s
  {
    var t := Delete(Insert(s, k, x), k);
    assert forall i :: 0 <= i < |s| ==> t[i] == s[i];
  }

  /** Moving the first element of `c` to the end of `removed` keeps their
      concatenation. */
  lemma DeleteFront<T>(s: seq<T>, removed: seq<T>, c: seq<T>, d: seq<T>)
    requires s == removed + c && 0 < |c| && d == Delete(c, 0)
    ensures s == (removed + [c[0]]) + d
  {
    assert c == [c[0]] + d;
  }

  /** No element of `s` appears twice. */
  ghost predicate Distinct<T>(s: seq<T>)
  {
    forall i, j :: 0 <= i < j < |s| ==> s[i] != s[j]
  }

  lemma InsertDistinct<T>(s: seq<T>, k: int, x: T)
    requires 0 <= k <= |s| && Distinct(s) && x !in s
    ensures Distinct(Insert(s, k, x))
  {
    var t := Insert(s, k, x);
    forall i, j | 0 <= i < j < |t|
      ensures t[i] != t[j]
    {
      if i == k {
        assert t[j] == s[j - 1];
      } else if j == k {
        assert t[i] == s[i];
      } else {
        var i', j' := if i < k then i else i - 1, if j < k then j else j - 1;
        assert t[i] == s[i'] && t[j] == s[j'] && i' < j';
      }
    }
  }

  lemma DeleteDistinct<T>(s: seq<T>, k: int)
    requires 0 <= k < |s| && Distinct(s)
    ensures Distinct(Delete(s, k))
  {
    var t := Delete(s, k);
    forall i, j | 0 <= i < j < |t|
      ensures t[i] != t[j]
    {
      var i', j' := if i < k then i else i + 1, if j < k then j else j + 1;
      assert t[i] == s[i'] && t[j] == s[j'] && i' < j';
    }
  }

  /** Index at which `osip_list_add` puts a new element into a list of `n`
      elements when asked for position `pos`.  An empty list takes it at 0
      whatever `pos`; -1 and positions past the end append; a position
      inside the list is honoured.  A negative position other than -1 on a
      non-empty list lands at index 1, because the walk that looks for the
      predecessor never starts. */
  function InsertIndex(n: int, pos: int): (k: int)
    requires n >= 0
    ensures 0 <= k <= n
    ensures n == 0 ==> k == 0
    ensures n > 0 && (pos == -1 || pos >= n) ==> k == n
    ensures 0 <= pos < n ==> k == pos
    ensures n > 0 && pos < -1 ==> k == 1
  {
    if n == 0 then 0
    else if pos == -1 || pos >= n then n
    else if pos < 0 then 1
    else pos
  }

  /** `osip_list_t`: the head node and the element counter. */
  class List<T> {
    var node: Node?<T>
    var nbElt: int
    ghost var nodes: seq<Node<T>>
    ghost var Contents: seq<T>
    ghost var Repr: set<object>

    /** The counter is the chain's length, the head is its first node, each
        node links to the next and the last to nothing, no node appears
        twice, and node `i` holds element `i`. */
    ghost predicate Valid()
      reads this, Repr
    {
      this in Repr
      && nbElt == |nodes| == |Contents|
      && (forall i :: 0 <= i < |nodes| ==> nodes[i] in Repr)
      && node == (if nodes == [] then null else nodes[0])
      && (forall i :: 0 <= i < |nodes| ==> nodes[i].element == Contents[i])
      && (forall i :: 0 <= i < |nodes| - 1 ==> nodes[i].next == nodes[i + 1])
      && (nodes != [] ==> nodes[|nodes| - 1].next == null)
      && Distinct(nodes)
    }

    /** `osip_list_size`: the number of elements. */
    function Size(): (n: int)
      requires Valid()
      reads this, Repr
      ensures n == |Contents|
    {
      nbElt
    }

    /** `osip_list_eol`: 0 while `i` names an element, 1 past the end. */
    function Eol(i: int): (r: int)
      requires Valid()
      reads this, Repr
      ensures r == 0 <==> i < |Contents|
      ensures r == 0 || r == 1
    {
      if i < nbElt then Success else 1
    }

    /** `osip_list_get`: the element at `pos`, or nothing (NULL) for a
        position outside the list.  The list is not changed. */
    method Get(pos: int) returns (r: Option<T>)
      requires Valid()
      ensures Valid()
      ensures r == if 0 <= pos < |Contents| then Some(Contents[pos]) else None
    {
      if pos < 0 || pos >= nbElt {
        return None;
      }
      var ntmp := node;
      var i := 0;
      while pos > i
        invariant 0 <= i <= pos && ntmp == nodes[i]
      {
        i := i + 1;
        ntmp := ntmp.next;
      }
      return Some(ntmp.element);
    }

    /** A fresh node holding `el` becomes the head. */
    method PushHead(el: T)
      requires Valid()
      modifies Repr
      ensures Valid() && fresh(Repr - old(Repr))
      ensures Contents == Insert(old(Contents), 0, el)
    {
      var n := new Node(el, node);
      ghost var old_nodes := nodes;
      InsertDistinct(nodes, 0, n);
      node, nbElt := n, nbElt + 1;
      nodes, Contents, Repr := Insert(nodes, 0, n), Insert(Contents, 0, el), Repr + {n};
      forall k | 0 <= k < |nodes| - 1
        ensures nodes[k].next == nodes[k + 1]
      {
        if k > 0 {
          assert nodes[k] == old_nodes[k - 1] && nodes[k + 1] == old_nodes[k];
        }
      }
    }

    /** A fresh node holding `el` is linked in after node `i`. */
    method LinkAfter(ntmp: Node<T>, i: int, el: T)
      requires Valid() && 0 <= i < |nodes| && ntmp == nodes[i]
      modifies Repr
      ensures Valid() && fresh(Repr - old(Repr))
      ensures Contents == Insert(old(Contents), i + 1, el)
    {
      var n := new Node(el, ntmp.next);
      ghost var old_nodes := nodes;
      InsertDistinct(nodes, i + 1, n);
      ntmp.next := n;
      nbElt := nbElt + 1;
      nodes := Insert(nodes, i + 1, n);
      Contents := Insert(Contents, i + 1, el);
      Repr := Repr + {n};
      forall k | 0 <= k < |nodes| - 1
        ensures nodes[k].next == nodes[k + 1]
      {
        if k < i {
          assert nodes[k] == old_nodes[k] != ntmp && nodes[k + 1] == old_nodes[k + 1];
        } else if k > i + 1 {
          assert nodes[k] == old_nodes[k - 1] != ntmp && nodes[k + 1] == old_nodes[k];
        }
      }
      forall k | 0 <= k < |nodes|
        ensures nodes[k].element == Contents[k]
      {
        if k < i + 1 {
          assert nodes[k] == old_nodes[k];
        } else if k > i + 1 {
          assert nodes[k] == old_nodes[k - 1];
        }
      }
    }

    /** `osip_list_add`: insert `el` at `InsertIndex(size, pos)` and return
        the new size.  `allocOk` is whether the node allocation succeeds;
        when it fails the result is `NoMem` and the chain is as before. */
    method Add(el: T, pos: int, allocOk: bool) returns (r: int)
      requires Valid()
      modifies Repr
      ensures Valid() && fresh(Repr - old(Repr))
      ensures !allocOk ==> r == NoMem && nodes == old(nodes) && Contents == old(Contents)
      ensures allocOk ==> r == |Contents| == |old(Contents)| + 1
                          && Contents == Insert(old(Contents), InsertIndex(|old(Contents)|, pos), el)
    {
      if nbElt == 0 {
        if !allocOk {
          return NoMem;
        }
        PushHead(el);
        return nbElt;
      }
      var p := pos;
      if p == -1 || p >= nbElt {
        p := nbElt;
      }
      var ntmp := node;
      if p == 0 {
        if !allocOk {
          return NoMem;
        }
        PushHead(el);
        return nbElt;
      }
      var i := 0;
      while p > i + 1
        invariant 0 <= i < |nodes| && ntmp == nodes[i]
        invariant p > 0 ==> i < p
        invariant p < 0 ==> i == 0
        decreases p - i
      {
        i := i + 1;
        ntmp := ntmp.next;
      }
      if !allocOk {
        return NoMem;
      }
      assert i + 1 == InsertIndex(|Contents|, pos);
      LinkAfter(ntmp, i, el);
      r := nbElt;
    }

    /** Unlink node `pos`, whose predecessor is `prev` (null standing for
        the head pointer): the link that pointed at it now skips it and the
        counter drops by one. */
    method Unlink(pos: int, prev: Node?<T>, rem: Node<T>)
      requires Valid() && 0 <= pos < |nodes| && rem == nodes[pos]
      requires prev == if pos == 0 then null else nodes[pos - 1]
      modifies this, prev
      ensures Valid() && Repr == old(Repr)
      ensures nodes == Delete(old(nodes), pos) && Contents == Delete(old(Contents), pos)
    {
      ghost var old_nodes := nodes;
      DeleteDistinct(nodes, pos);
      if prev == null {
        node := rem.next;
      } else {
        prev.next := rem.next;
      }
      nbElt := nbElt - 1;
      nodes, Contents := Delete(nodes, pos), Delete(Contents, pos);
      forall k | 0 <= k < |nodes| - 1
        ensures nodes[k].next == nodes[k + 1]
      {
        if k < pos - 1 {
          assert nodes[k] == old_nodes[k] != prev && nodes[k + 1] == old_nodes[k + 1];
        } else if k >= pos {
          assert nodes[k] == old_nodes[k + 1] != prev && nodes[k + 1] == old_nodes[k + 2];
        }
      }
      forall k | 0 <= k < |nodes|
        ensures nodes[k].element == Contents[k] && nodes[k] in Repr
      {
        if k >= pos {
          assert nodes[k] == old_nodes[k + 1];
        }
      }
      if pos < |nodes| {
        assert nodes[|nodes| - 1] == old_nodes[|old_nodes| - 1] != prev;
      }
    }

    /** `osip_list_remove`: unlink the node at `pos` and return the new
        size; a position outside the list gives `UndefinedError` and
        changes nothing. */
    method Remove(pos: int) returns (r: int)
      requires Valid()
      modifies Repr
      ensures Valid() && Repr == old(Repr)
      ensures !(0 <= pos < |old(Contents)|) ==> r == UndefinedError && nodes == old(nodes) && Contents == old(Contents)
      ensures 0 <= pos < |old(Contents)| ==> r == |Contents| && Contents == Delete(old(Contents), pos)
    {
      if pos < 0 || pos >= nbElt {
        return UndefinedError;
      }
      var ntmp := node;
      if pos == 0 {
        Unlink(0, null, ntmp);
        return nbElt;
      }
      var i := 0;
      while pos > i + 1
        invariant 0 <= i < pos && ntmp == nodes[i]
      {
        i := i + 1;
        ntmp := ntmp.next;
      }
      var remnode := ntmp.next;
      assert i + 1 == pos && remnode == nodes[pos];
      Unlink(pos, ntmp, remnode);
      r := nbElt;
    }

    /** One round of `osip_list_special_free`: fetch the head element and
        unlink its node. */
    method TakeHead() returns (element: T)
      requires Valid() && |Contents| > 0
      modifies Repr
      ensures Valid() && Repr == old(Repr)
      ensures element == old(Contents)[0] && Contents == Delete(old(Contents), 0)
    {
      var got := Get(0);
      var _ := Remove(0);
      element := got.value;
    }

    /** `osip_list_special_free`: remove the elements front to back, handing
        each to the free function when there is one; `freed` is the sequence
        of elements the free function receives. */
    method SpecialFree(hasFreeFunc: bool) returns (freed: seq<T>)
      requires Valid()
      modifies Repr
      ensures Valid() && Repr == old(Repr)
      ensures Contents == []
      ensures freed == if hasFreeFunc then old(Contents) else []
    {
      freed := [];
      ghost var removed: seq<T> := [];
      while Eol(0) == 0
        invariant Valid() && Repr == old(Repr)
        invariant old(Contents) == removed + Contents
        invariant hasFreeFunc ==> freed == removed
        invariant !hasFreeFunc ==> freed == []
        decreases |Contents|
      {
        ghost var c := Contents;
        var element := TakeHead();
        DeleteFront(old(Contents), removed, c, Contents);
        removed := removed + [element];
        if hasFreeFunc {
          freed := freed + [element];
        }
      }
    }
  }

  /** `osip_list_init`: empty the list; a NULL list is refused. */
  method Init<T>(li: List?<T>) returns (r: int)
    modifies li
    ensures li == null ==> r == BadParameter
    ensures li != null ==> r == Success && li.Valid() && li.Contents == [] && li.Repr == {li}
  {
    if li == null {
      return BadParameter;
    }
    li.node, li.nbElt := null, 0;
    li.nodes, li.Contents, li.Repr := [], [], {li};
    return Success;
  }

  /** `osip_list_iterator_t`: the current node, the link that points at it
      (`prev` null standing for the list's head pointer, otherwise the node
      whose `next` it is), the list and the current position. */
  class Iterator<T> {
    var actual: Node?<T>
    var prev: Node?<T>
    var li: List?<T>
    var pos: int

    constructor ()
      ensures actual == null && prev == null && li == null && pos == 0
    {
      actual, prev, li, pos := null, null, null, 0;
    }

    /** The cursor stands at `pos` of its list, or just past the end. */
    ghost predicate Valid()
      reads this, li
    {
      li != null && 0 <= pos <= |li.nodes|
      && actual == (if pos < |li.nodes| then li.nodes[pos] else null)
      && prev == (if pos == 0 then null else li.nodes[pos - 1])
    }

    /** `osip_list_iterator_has_elem`: a current node inside the list. */
    predicate HasElem()
      reads this, li
    {
      actual != null && li != null && pos < li.nbElt
    }

    /** `osip_list_get_first`: on an empty list the cursor is left with no
        current node; otherwise it stands on the head and the first element
        is returned. */
    method GetFirst(l: List<T>) returns (r: Option<T>)
      requires l.Valid()
      modifies this
      ensures l.Contents == [] ==> actual == null && r == None && prev == old(prev) && li == old(li) && pos == old(pos)
      ensures l.Contents != [] ==> Valid() && li == l && pos == 0 && r == Some(l.Contents[0])
      ensures l.Valid()
    {
      if 0 >= l.nbElt {
        actual := null;
        return None;
      }
      actual, prev, li, pos := l.node, null, l, 0;
      return Some(l.node.element);
    }

    /** `osip_list_get_next`: step to the next position and return its
        element, or nothing past the end. */
    method GetNext() returns (r: Option<T>)
      requires Valid() && li.Valid() && actual != null
      modifies this
      ensures Valid() && li == old(li) && pos == old(pos) + 1 && li.Valid()
      ensures r == if pos < |li.Contents| then Some(li.Contents[pos]) else None
    {
      prev := actual;
      actual := actual.next;
      pos := pos + 1;
      if HasElem() {
        return Some(actual.element);
      }
      actual := null;
      return None;
    }

    /** `osip_list_iterator_remove`: unlink the current node, which shrinks
        the list by one, and return the element that now takes its
        position, if any.  Without a current node nothing changes. */
    method Remove() returns (r: Option<T>)
      requires Valid() && li.Valid()
      modifies this, li, li.Repr
      ensures Valid() && li.Valid() && li == old(li) && pos == old(pos) && li.Repr == old(li.Repr)
      ensures old(HasElem()) ==> li.Contents == Delete(old(li.Contents), pos)
      ensures !old(HasElem()) ==> li.Contents == old(li.Contents)
      ensures r == if pos < |li.Contents| then Some(li.Contents[pos]) else None
    {
      if HasElem() {
        var l := li;
        l.Unlink(pos, prev, actual);
        actual := if prev == null then l.node else prev.next;
      }
      if HasElem() {
        return Some(actual.element);
      }
      return None;
    }
  }

  /** Index of the first element `cloneFunc` fails on, or the length. */
  function FirstFailure<T>(s: seq<T>, cloneFunc: T -> (int, T)): (k: nat)
    ensures k <= |s|
    ensures forall j :: 0 <= j < k ==> cloneFunc(s[j]).0 == 0
    ensures k < |s| ==> cloneFunc(s[k]).0 != 0
  {
    if s == [] || cloneFunc(s[0]).0 != 0 then 0 else 1 + FirstFailure(s[1..], cloneFunc)
  }

  /** The copies `cloneFunc` makes of `s`, in order. */
  function Clones<T>(s: seq<T>, cloneFunc: T -> (int, T)): (c: seq<T>)
    ensures |c| == |s|
    ensures forall j :: 0 <= j < |s| ==> c[j] == cloneFunc(s[j]).1
  {
    seq(|s|, j requires 0 <= j < |s| => cloneFunc(s[j]).1)
  }

  /** Cloning one more element appends its copy. */
  lemma ClonesStep<T>(s: seq<T>, k: int, cloneFunc: T -> (int, T))
    requires 0 <= k < |s|
    ensures Clones(s[..k + 1], cloneFunc) == Clones(s[..k], cloneFunc) + [cloneFunc(s[k]).1]
  {
  }

  /** The state of `osip_list_clone` after copying `k` elements: `src` is
      as it was, the cursor stands on element `k` (or has run off the end),
      `data` is that element, and `dst` holds its old elements followed by
      the first `k` copies. */
  ghost predicate Cloning<T>(src: List<T>, dst: List<T>, cursor: Iterator<T>, data: Option<T>, k: int,
                             src0: seq<T>, dst0: seq<T>, cloneFunc: T -> (int, T))
    reads src, src.Repr, dst, dst.Repr, cursor
  {
    src.Valid() && src.Contents == src0 && dst.Valid() && src.Repr !! dst.Repr
    && cursor !in src.Repr && cursor !in dst.Repr
    && 0 <= k <= |src0|
    && (cursor.actual == null ==> k == |src0|)
    && (cursor.actual != null ==> cursor.li == src && cursor.Valid() && k == cursor.pos)
    && (k < |src0| ==> data == Some(src0[k]))
    && (forall j :: 0 <= j < k ==> cloneFunc(src0[j]).0 == 0)
    && dst.Contents == dst0 + Clones(src0[..k], cloneFunc)
  }

  /** One round of `osip_list_clone` whose copy succeeded: append it to
      `dst` and step the cursor. */
  method CloneNext<T>(src: List<T>, dst: List<T>, cursor: Iterator<T>, data: Option<T>, ghost k: int,
                      ghost src0: seq<T>, ghost dst0: seq<T>, cloneFunc: T -> (int, T)) returns (next: Option<T>)
    requires Cloning(src, dst, cursor, data, k, src0, dst0, cloneFunc)
    requires cursor.HasElem() && cloneFunc(data.value).0 == 0
    modifies dst.Repr, cursor
    ensures Cloning(src, dst, cursor, next, k + 1, src0, dst0, cloneFunc)
    ensures src.Repr == old(src.Repr) && fresh(dst.Repr - old(dst.Repr))
  {
    var res := cloneFunc(data.value);
    var _ := dst.Add(res.1, -1, true);
    ClonesStep(src0, k, cloneFunc);
    next := cursor.GetNext();
  }

  /** The first failure is the first index whose clone fails. */
  lemma FirstFailureAt<T>(s: seq<T>, cloneFunc: T -> (int, T), k: int)
    requires 0 <= k <= |s|
    requires forall j :: 0 <= j < k ==> cloneFunc(s[j]).0 == 0
    requires k == |s| || cloneFunc(s[k]).0 != 0
    ensures FirstFailure(s, cloneFunc) == k
  {
  }

  /** `osip_list_clone` before its first round: a cursor on `src`'s head. */
  method StartClone<T>(src: List<T>, dst: List<T>, cloneFunc: T -> (int, T)) returns (cursor: Iterator<T>, data: Option<T>)
    requires src.Valid() && dst.Valid() && src.Repr !! dst.Repr
    ensures fresh(cursor)
    ensures Cloning(src, dst, cursor, data, 0, src.Contents, dst.Contents, cloneFunc)
  {
    cursor := new Iterator<T>();
    data := cursor.GetFirst(src);
    assert src.Contents[..0] == [];
  }

  /** `osip_list_clone`: append to `dst` the copies of `src`'s elements in
      order, stopping at the first element the clone function fails on and
      returning its code.  The clone function is a pure function giving a
      result code and the copy; appends are taken to allocate. */
  method Clone<T>(src: List<T>, dst: List<T>, cloneFunc: T -> (int, T)) returns (r: int)
    requires src.Valid() && dst.Valid() && src.Repr !! dst.Repr
    modifies dst.Repr
    ensures src.Valid() && src.Contents == old(src.Contents)
    ensures dst.Valid() && fresh(dst.Repr - old(dst.Repr))
    ensures var k := FirstFailure(src.Contents, cloneFunc);
            dst.Contents == old(dst.Contents) + Clones(src.Contents[..k], cloneFunc)
            && r == if k < |src.Contents| then cloneFunc(src.Contents[k]).0 else Success
  {
    ghost var src0, dst0 := src.Contents, dst.Contents;
    var cursor, data := StartClone(src, dst, cloneFunc);
    ghost var k := 0;
    while cursor.HasElem()
      invariant Cloning(src, dst, cursor, data, k, src0, dst0, cloneFunc)
      invariant src.Repr == old(src.Repr) && fresh(dst.Repr - old(dst.Repr))
      decreases |src0| - k
    {
      if cloneFunc(data.value).0 != 0 {
        FirstFailureAt(src0, cloneFunc, k);
        return cloneFunc(data.value).0;
      }
      data := CloneNext(src, dst, cursor, data, k, src0, dst0, cloneFunc);
      k := k + 1;
    }
    FirstFailureAt(src0, cloneFunc, k);
    return Success;
  }
}
