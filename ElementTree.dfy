/** The parsed XML tree of `xml.etree.ElementTree` and the three queries the
    parser makes on it: `find` with a path of plain tags, `get` and `itertext`. */
module ElementTree {
  import opened Wrappers
  import Strings

  /** An element: its tag, attributes, the text before its first child, its
      children in document order, and the tail text that follows its end tag
      inside its parent. A missing text or tail is `None`. */
  datatype Element = Element(
    tag: string,
    attrib: map<string, string>,
    text: Option<string>,
    children: seq<Element>,
    tail: Option<string>)

  /** `e.get(key)`: the attribute's value, or `None` when it is absent. */
  function Get(e: Element, key: string): Option<string>
  {
    if key in e.attrib then Some(e.attrib[key]) else None
  }

  // ---------------------------------------------------------------------------
  // find

  /** The elements of `cs` whose tag is `tag`, in order. */
  function Tagged(cs: seq<Element>, tag: string): seq<Element>
  {
    if cs == [] then []
    else (if cs[0].tag == tag then [cs[0]] else []) + Tagged(cs[1..], tag)
  }

  /** One step of an element path: the children tagged `tag` of each element
      in `xs`, grouped by parent, in order. */
  function Select(xs: seq<Element>, tag: string): seq<Element>
  {
    if xs == [] then [] else Tagged(xs[0].children, tag) + Select(xs[1..], tag)
  }

  /** `iterfind`: the steps of a path applied one after the other. */
  function IterFind(xs: seq<Element>, steps: seq<string>): seq<Element>
    decreases |steps|
  {
    if steps == [] then xs else IterFind(Select(xs, steps[0]), steps[1..])
  }

  /** The first element `iterfind` yields for the tags of a path, or `None`. */
  function FindPath(e: Element, steps: seq<string>): Option<Element>
  {
    var found := IterFind([e], steps);
    if found == [] then None else Some(found[0])
  }

  /** `e.find(path)` for a path of plain tags separated by `/`. What it finds
      carries the path's last tag, and a path of one tag looks among the
      children only. */
  function Find(e: Element, path: string): (r: Option<Element>)
    ensures r.Some? ==> r.value.tag == Strings.LastPart(path, '/')
    ensures '/' !in path ==> r == FindPath(e, [path])
  {
    IterFindLastTag([e], Strings.Split(path, '/'));
    OneTagPath(path);
    FindPath(e, Strings.Split(path, '/'))
  }

  lemma OneTagPath(path: string)
    ensures '/' !in path ==> Strings.Split(path, '/') == [path]
  {
    if '/' !in path {
      Strings.SplitNoSeparator(path, '/');
    }
  }

  lemma {:induction false} TaggedTags(cs: seq<Element>, tag: string)
    ensures forall x | x in Tagged(cs, tag) :: x.tag == tag
  {
    if cs != [] {
      TaggedTags(cs[1..], tag);
    }
  }

  lemma {:induction false} SelectTags(xs: seq<Element>, tag: string)
    ensures forall x | x in Select(xs, tag) :: x.tag == tag
  {
    if xs != [] {
      TaggedTags(xs[0].children, tag);
      SelectTags(xs[1..], tag);
    }
  }

  /** Every element a non-empty path reaches carries the path's last tag. */
  lemma {:induction false} IterFindLastTag(xs: seq<Element>, steps: seq<string>)
    requires steps != []
    ensures forall x | x in IterFind(xs, steps) :: x.tag == steps[|steps| - 1]
    decreases |steps|
  {
    SelectTags(xs, steps[0]);
    if |steps| > 1 {
      IterFindLastTag(Select(xs, steps[0]), steps[1..]);
    }
  }

  /** A path written out as its tags joined by `/` finds what those tags find. */
  lemma FindJoinedPath(e: Element, steps: seq<string>)
    requires |steps| > 0 && forall i :: 0 <= i < |steps| ==> '/' !in steps[i]
    ensures Find(e, Strings.Join(steps, '/')) == FindPath(e, steps)
  {
    Strings.SplitJoin(steps, '/');
  }

  /** Reference for paths: the elements reached from `e` by going down
      through a child with each tag of `steps` in turn, in document order. */
  function Descend(e: Element, steps: seq<string>): seq<Element>
    decreases |steps|, 1
  {
    if steps == [] then [e] else DescendAll(Tagged(e.children, steps[0]), steps[1..])
  }

  function DescendAll(xs: seq<Element>, steps: seq<string>): seq<Element>
    decreases |steps|, 2, |xs|
  {
    if xs == [] then [] else Descend(xs[0], steps) + DescendAll(xs[1..], steps)
  }

  lemma {:induction false} DescendAllAppend(xs: seq<Element>, ys: seq<Element>, steps: seq<string>)
    ensures DescendAll(xs + ys, steps) == DescendAll(xs, steps) + DescendAll(ys, steps)
  {
    if xs == [] {
      assert xs + ys == ys;
    } else {
      var x, y, z := Descend(xs[0], steps), DescendAll(xs[1..], steps), DescendAll(ys, steps);
      assert (xs + ys)[0] == xs[0];
      assert (xs + ys)[1..] == xs[1..] + ys;
      DescendAllAppend(xs[1..], ys, steps);
      assert DescendAll(xs + ys, steps) == x + (y + z);
      assert x + (y + z) == (x + y) + z;
    }
  }

  lemma {:induction false} DescendAllNoSteps(xs: seq<Element>)
    ensures DescendAll(xs, []) == xs
  {
    if xs != [] {
      DescendAllNoSteps(xs[1..]);
      assert [xs[0]] + xs[1..] == xs;
    }
  }

  lemma {:induction false} SelectThenDescend(xs: seq<Element>, tag: string, rest: seq<string>)
    ensures DescendAll(Select(xs, tag), rest) == DescendAll(xs, [tag] + rest)
  {
    if xs != [] {
      SelectThenDescend(xs[1..], tag, rest);
      DescendAllAppend(Tagged(xs[0].children, tag), Select(xs[1..], tag), rest);
      assert ([tag] + rest)[1..] == rest;
    }
  }

  /** Applying the steps of a path one after the other reaches exactly the
      elements that are reached by going down through them, in the same order. */
  lemma {:induction false} IterFindIsDescent(xs: seq<Element>, steps: seq<string>)
    ensures IterFind(xs, steps) == DescendAll(xs, steps)
    decreases |steps|
  {
    if steps == [] {
      DescendAllNoSteps(xs);
    } else {
      IterFindIsDescent(Select(xs, steps[0]), steps[1..]);
      SelectThenDescend(xs, steps[0], steps[1..]);
      assert [steps[0]] + steps[1..] == steps;
    }
  }

  /** `find` is the first element reached from `e` through the tags of the path. */
  lemma FindDescends(e: Element, steps: seq<string>)
    ensures var reached := Descend(e, steps);
      FindPath(e, steps) == if reached == [] then None else Some(reached[0])
  {
    IterFindIsDescent([e], steps);
    assert DescendAll([e], steps) == Descend(e, steps) + DescendAll([], steps);
    assert Descend(e, steps) + [] == Descend(e, steps);
  }

  lemma {:induction false} TaggedFirst(cs: seq<Element>, tag: string)
    ensures Tagged(cs, tag) != [] <==> exists i :: 0 <= i < |cs| && cs[i].tag == tag
    ensures Tagged(cs, tag) != [] ==>
      exists i :: 0 <= i < |cs| && cs[i] == Tagged(cs, tag)[0] && cs[i].tag == tag
        && forall j :: 0 <= j < i ==> cs[j].tag != tag
  {
    if cs != [] {
      TaggedFirst(cs[1..], tag);
      if cs[0].tag != tag {
        if Tagged(cs, tag) != [] {
          var i :| 0 <= i < |cs[1..]| && cs[1..][i] == Tagged(cs[1..], tag)[0] && cs[1..][i].tag == tag
            && forall j :: 0 <= j < i ==> cs[1..][j].tag != tag;
          assert cs[i + 1] == Tagged(cs, tag)[0];
          assert forall j :: 0 <= j < i + 1 ==> cs[j].tag != tag by {
            forall j | 0 <= j < i + 1 ensures cs[j].tag != tag {
              if j > 0 { assert cs[j] == cs[1..][j - 1]; }
            }
          }
        } else {
          forall i | 0 <= i < |cs| ensures cs[i].tag != tag {
            if i > 0 { assert cs[i] == cs[1..][i - 1]; }
          }
        }
      }
    }
  }

  /** `e.find(tag)` for a single tag is the first child with that tag, and
      `None` exactly when no child has it. */
  lemma FindChild(e: Element, tag: string)
    ensures FindPath(e, [tag]).Some? <==> exists i :: 0 <= i < |e.children| && e.children[i].tag == tag
    ensures FindPath(e, [tag]).Some? ==>
      exists i :: 0 <= i < |e.children| && e.children[i] == FindPath(e, [tag]).value && e.children[i].tag == tag
        && forall j :: 0 <= j < i ==> e.children[j].tag != tag
  {
    var cs := Tagged(e.children, tag);
    assert Select([e], tag) == cs by {
      assert Select([e], tag) == Tagged(e.children, tag) + Select([], tag);
    }
    assert IterFind([e], [tag]) == cs;
    TaggedFirst(e.children, tag);
  }

  /** The child found for a tag is the first one carrying it. */
  lemma FindChildAt(e: Element, tag: string, i: nat)
    requires i < |e.children| && e.children[i].tag == tag
    requires forall j :: 0 <= j < i ==> e.children[j].tag != tag
    ensures FindPath(e, [tag]) == Some(e.children[i])
  {
    FindChild(e, tag);
    var k :| 0 <= k < |e.children| && e.children[k] == FindPath(e, [tag]).value && e.children[k].tag == tag
      && forall j :: 0 <= j < k ==> e.children[j].tag != tag;
    assert k == i;
  }

  // ---------------------------------------------------------------------------
  // itertext

  /** The fragment `itertext` yields for a text or tail: nothing when it is
      missing or empty. */
  function Fragment(t: Option<string>): seq<string>
  {
    if t.Some? && t.value != "" then [t.value] else []
  }

  /** `e.itertext()`: the element's text, then for each child the child's own
      fragments followed by its tail; the element's own tail is not part of it. Empty fragments are skipped,
      so no fragment is the empty string. */
  function IterText(e: Element): (r: seq<string>)
    ensures forall i :: 0 <= i < |r| ==> r[i] != ""
    decreases e, 1
  {
    Fragment(e.text) + IterTextChildren(e, 0)
  }

  function IterTextChildren(e: Element, i: nat): (r: seq<string>)
    requires i <= |e.children|
    ensures forall k :: 0 <= k < |r| ==> r[k] != ""
    decreases e, 0, |e.children| - i
  {
    if i == |e.children| then []
    else IterText(e.children[i]) + Fragment(e.children[i].tail) + IterTextChildren(e, i + 1)
  }

  /** The start and end tags of a document, in the order they are read. */
  datatype Event = Start(element: Element) | End(element: Element)

  /** Reference for text content: the start and end tags of the subtree of
      `e`, read left to right. */
  function Events(e: Element): seq<Event>
    decreases e, 1
  {
    [Start(e)] + ChildEvents(e, 0) + [End(e)]
  }

  function ChildEvents(e: Element, i: nat): seq<Event>
    requires i <= |e.children|
    decreases e, 0, |e.children| - i
  {
    if i == |e.children| then [] else Events(e.children[i]) + ChildEvents(e, i + 1)
  }

  /** The character data that follows a tag: an element's text after its start
      tag, its tail after its end tag. */
  function EventText(ev: Event): string
  {
    match ev
    case Start(x) => x.text.GetOr("")
    case End(x) => x.tail.GetOr("")
  }

  function EventsText(evs: seq<Event>): string
  {
    if evs == [] then "" else EventText(evs[0]) + EventsText(evs[1..])
  }

  /** All the character data inside `e`, in document order: everything read
      between its start tag and its own end tag. */
  function DocumentText(e: Element): string
  {
    var evs := Events(e);
    EventsText(evs[..|evs| - 1])
  }

  lemma {:induction false} EventsTextAppend(a: seq<Event>, b: seq<Event>)
    ensures EventsText(a + b) == EventsText(a) + EventsText(b)
  {
    if a == [] {
      assert a + b == b;
    } else {
      var x, y, z := EventText(a[0]), EventsText(a[1..]), EventsText(b);
      assert (a + b)[0] == a[0];
      assert (a + b)[1..] == a[1..] + b;
      EventsTextAppend(a[1..], b);
      assert EventsText(a + b) == x + (y + z);
      assert x + (y + z) == (x + y) + z;
    }
  }

  lemma FragmentText(t: Option<string>)
    ensures Strings.Concat(Fragment(t)) == t.GetOr("")
  {
    if t.Some? && t.value != "" {
      assert Strings.Concat([t.value]) == t.value + Strings.Concat([]);
    }
  }

  /** `''.join(e.itertext())`, whatever the depth of nesting, is the character
      data inside `e` in document order. */
  lemma {:induction false} IterTextIsDocumentText(e: Element)
    ensures Strings.Concat(IterText(e)) == DocumentText(e)
    decreases e, 1
  {
    var evs := Events(e);
    assert evs[..|evs| - 1] == [Start(e)] + ChildEvents(e, 0);
    EventsTextAppend([Start(e)], ChildEvents(e, 0));
    assert EventsText([Start(e)]) == e.text.GetOr("") + EventsText([]);
    Strings.ConcatAppend(Fragment(e.text), IterTextChildren(e, 0));
    FragmentText(e.text);
    IterTextChildrenText(e, 0);
  }

  lemma {:induction false} IterTextChildrenText(e: Element, i: nat)
    requires i <= |e.children|
    ensures Strings.Concat(IterTextChildren(e, i)) == EventsText(ChildEvents(e, i))
    decreases e, 0, |e.children| - i
  {
    if i < |e.children| {
      var c := e.children[i];
      IterTextIsDocumentText(c);
      IterTextChildrenText(e, i + 1);
      var evs := Events(c);
      assert evs == evs[..|evs| - 1] + [End(c)];
      EventsTextAppend(evs[..|evs| - 1], [End(c)]);
      assert EventsText([End(c)]) == c.tail.GetOr("") + EventsText([]);
      EventsTextAppend(evs, ChildEvents(e, i + 1));
      Strings.ConcatAppend(IterText(c), Fragment(c.tail));
      Strings.ConcatAppend(IterText(c) + Fragment(c.tail), IterTextChildren(e, i + 1));
      FragmentText(c.tail);
    }
  }
}
