/**
 * `search` of tir/tir.py: the only extraction primitive. It looks through the
 * descendants of a node, depth first and in document order, for the first
 * element with the wanted tag and (unless no attribute is asked for) an
 * attribute pair whose name and value satisfy the two matchers.
 */
module Search {
  import opened Markup
  import opened Failures
  import opened Text

  /** One side of an attribute pair against its matcher: equality, or `find(...) != -1`. */
  predicate Matches(m: Matcher, s: string) {
    match m
    case Exact(literal) => s == literal
    case Contains(needle) => Text.Contains(s, needle)
  }

  /** `_has_attr`: some attribute pair satisfies both matchers. */
  function HasAttr(attrs: seq<(string, string)>, attr: Matcher, val: Matcher): (b: bool)
    ensures b <==> exists i :: 0 <= i < |attrs| && Matches(attr, attrs[i].0) && Matches(val, attrs[i].1)
  {
    if |attrs| == 0 then false
    else (Matches(attr, attrs[0].0) && Matches(val, attrs[0].1)) || HasAttr(attrs[1..], attr, val)
  }

  /** The test `_search` applies to each element it visits. */
  predicate Selects(n: Node, tag: string, attr: Option<Matcher>, val: Matcher) {
    n.tag == tag && (attr.None? || HasAttr(n.attrs, attr.value, val))
  }

  /** The descendants of a list of siblings, in document (pre-)order. */
  function Preorder(cs: seq<Node>): seq<Node>
    decreases cs
  {
    if |cs| == 0 then [] else [cs[0]] + Preorder(cs[0].children) + Preorder(cs[1..])
  }

  /** The first element of a flat list that `Selects` accepts. */
  function FirstSelected(ns: seq<Node>, tag: string, attr: Option<Matcher>, val: Matcher): Option<Node> {
    if |ns| == 0 then None
    else if Selects(ns[0], tag, attr, val) then Some(ns[0])
    else FirstSelected(ns[1..], tag, attr, val)
  }

  /** `FirstSelected` finds nothing exactly when nothing qualifies, and otherwise the earliest that does. */
  lemma {:induction false} FirstSelectedIsFirst(ns: seq<Node>, tag: string, attr: Option<Matcher>, val: Matcher)
    ensures var r := FirstSelected(ns, tag, attr, val);
            && (r.None? <==> forall k :: 0 <= k < |ns| ==> !Selects(ns[k], tag, attr, val))
            && (r.Some? ==> exists k :: (0 <= k < |ns| && ns[k] == r.value && Selects(ns[k], tag, attr, val)
                                         && forall j :: 0 <= j < k ==> !Selects(ns[j], tag, attr, val)))
    decreases |ns|
  {
    if |ns| > 0 && !Selects(ns[0], tag, attr, val) {
      var rest := ns[1..];
      FirstSelectedIsFirst(rest, tag, attr, val);
      var r := FirstSelected(rest, tag, attr, val);
      if r.Some? {
        var k :| 0 <= k < |rest| && rest[k] == r.value && Selects(rest[k], tag, attr, val)
          && forall j :: 0 <= j < k ==> !Selects(rest[j], tag, attr, val);
        assert ns[k + 1] == r.value;
        forall j | 0 <= j < k + 1 ensures !Selects(ns[j], tag, attr, val) {
          if j > 0 {
            assert ns[j] == rest[j - 1];
          }
        }
      } else {
        forall k | 0 <= k < |ns| ensures !Selects(ns[k], tag, attr, val) {
          if k > 0 {
            assert ns[k] == rest[k - 1];
          }
        }
      }
    }
  }

  /** `_search`: visit each child, test it, then search below it before the next sibling. */
  function SearchChildren(cs: seq<Node>, tag: string, attr: Option<Matcher>, val: Matcher): (r: Option<Node>)
    ensures r.Some? ==> Selects(r.value, tag, attr, val)
    decreases cs
  {
    if |cs| == 0 then None
    else if Selects(cs[0], tag, attr, val) then Some(cs[0])
    else
      match SearchChildren(cs[0].children, tag, attr, val)
      case Some(found) => Some(found)
      case None => SearchChildren(cs[1..], tag, attr, val)
  }

  /** `search`: the first matching strict descendant of `element`, or `TagNotFound`. */
  function SearchNode(element: Node, tag: string, attr: Option<Matcher>, val: Matcher): (r: Result<Node>)
    ensures r.Err? ==> r.error == TagNotFound(tag, attr, val)
    ensures r.Ok? ==> Selects(r.value, tag, attr, val)
  {
    SearchIsPreorderScan(element.children, tag, attr, val);
    FirstSelectedIsFirst(Preorder(element.children), tag, attr, val);
    match SearchChildren(element.children, tag, attr, val)
    case Some(found) => Ok(found)
    case None => Err(TagNotFound(tag, attr, val))
  }

  lemma {:induction false} FirstSelectedConcat(a: seq<Node>, b: seq<Node>, tag: string, attr: Option<Matcher>, val: Matcher)
    ensures FirstSelected(a + b, tag, attr, val)
         == if FirstSelected(a, tag, attr, val).Some? then FirstSelected(a, tag, attr, val)
            else FirstSelected(b, tag, attr, val)
    decreases |a|
  {
    if |a| > 0 {
      assert (a + b)[1..] == a[1..] + b;
      FirstSelectedConcat(a[1..], b, tag, attr, val);
    } else {
      assert a + b == b;
    }
  }

  /**
   * The recursive descent finds exactly the first element, in document order,
   * of all descendants that the test accepts.
   */
  lemma {:induction false} SearchIsPreorderScan(cs: seq<Node>, tag: string, attr: Option<Matcher>, val: Matcher)
    ensures SearchChildren(cs, tag, attr, val) == FirstSelected(Preorder(cs), tag, attr, val)
    decreases cs
  {
    if |cs| > 0 {
      var c := cs[0];
      SearchIsPreorderScan(c.children, tag, attr, val);
      SearchIsPreorderScan(cs[1..], tag, attr, val);
      var p := Preorder(cs);
      assert p == [c] + (Preorder(c.children) + Preorder(cs[1..]));
      if Selects(c, tag, attr, val) {
        assert p[0] == c;
      } else {
        ScanPastUnselected(cs, tag, attr, val);
      }
    }
  }

  /** One step of the scan: a child the test rejects passes the search on to its subtree, then to its siblings. */
  lemma {:induction false} ScanPastUnselected(cs: seq<Node>, tag: string, attr: Option<Matcher>, val: Matcher)
    requires |cs| > 0 && !Selects(cs[0], tag, attr, val)
    requires SearchChildren(cs[0].children, tag, attr, val) == FirstSelected(Preorder(cs[0].children), tag, attr, val)
    requires SearchChildren(cs[1..], tag, attr, val) == FirstSelected(Preorder(cs[1..]), tag, attr, val)
    ensures SearchChildren(cs, tag, attr, val) == FirstSelected(Preorder(cs), tag, attr, val)
  {
    var c := cs[0];
    var p := Preorder(cs);
    assert p == [c] + (Preorder(c.children) + Preorder(cs[1..]));
    assert p[0] == c;
    assert p[1..] == Preorder(c.children) + Preorder(cs[1..]);
    assert FirstSelected(p, tag, attr, val) == FirstSelected(p[1..], tag, attr, val);
    FirstSelectedConcat(Preorder(c.children), Preorder(cs[1..]), tag, attr, val);
  }

  // ------------------------------------------------------------ size, for strictness

  function Size(n: Node): nat
    decreases n
  {
    1 + SizeAll(n.children)
  }

  function SizeAll(cs: seq<Node>): nat
    decreases cs
  {
    if |cs| == 0 then 0 else Size(cs[0]) + SizeAll(cs[1..])
  }

  lemma {:induction false} PreorderSmaller(cs: seq<Node>, k: nat)
    requires k < |Preorder(cs)|
    ensures Size(Preorder(cs)[k]) <= SizeAll(cs)
    decreases cs
  {
    var c := cs[0];
    var inner := Preorder(c.children);
    if k == 0 {
    } else if k - 1 < |inner| {
      PreorderSmaller(c.children, k - 1);
    } else {
      PreorderSmaller(cs[1..], k - 1 - |inner|);
    }
  }

  /**
   * What `search` returns is a strict descendant of its argument (never the
   * argument itself), the first of them in document order that has the tag
   * and, when an attribute matcher is given, a matching attribute pair; and
   * `TagNotFound` is raised exactly when no descendant qualifies.
   */
  lemma SearchFindsFirstDescendant(element: Node, tag: string, attr: Option<Matcher>, val: Matcher)
    ensures var r := SearchNode(element, tag, attr, val);
      && (r.Err? <==> forall k :: 0 <= k < |Preorder(element.children)| ==> !Selects(Preorder(element.children)[k], tag, attr, val))
      && (r.Ok? ==> exists k :: (0 <= k < |Preorder(element.children)|
                                 && Preorder(element.children)[k] == r.value
                                 && Selects(r.value, tag, attr, val)
                                 && forall j :: 0 <= j < k ==> !Selects(Preorder(element.children)[j], tag, attr, val)))
      && (r.Ok? ==> r.value != element && Size(r.value) < Size(element))
  {
    var r := SearchNode(element, tag, attr, val);
    var p := Preorder(element.children);
    SearchIsPreorderScan(element.children, tag, attr, val);
    FirstSelectedIsFirst(p, tag, attr, val);
    if r.Ok? {
      var k :| 0 <= k < |p| && p[k] == r.value && Selects(p[k], tag, attr, val)
        && forall j :: 0 <= j < k ==> !Selects(p[j], tag, attr, val);
      PreorderSmaller(element.children, k);
    }
  }

  /** Without an attribute matcher the value matcher plays no part. */
  lemma {:induction false} ValueIgnoredWithoutAttribute(cs: seq<Node>, tag: string, v1: Matcher, v2: Matcher)
    ensures SearchChildren(cs, tag, None, v1) == SearchChildren(cs, tag, None, v2)
    decreases cs
  {
    if |cs| > 0 {
      ValueIgnoredWithoutAttribute(cs[0].children, tag, v1, v2);
      ValueIgnoredWithoutAttribute(cs[1..], tag, v1, v2);
    }
  }
}
