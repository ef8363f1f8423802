/** The part of an HTML document the program reads: its elements in document
    order, each with its CSS classes and attributes. A class selector
    (`.name`) becomes a filter over that sequence. */
module Html {

  datatype Node = Node(classes: set<string>, attrs: map<string, string>)

  /** Elements in document order. */
  type Document = seq<Node>

  /** The value of attribute `name`, or "" when the element lacks it (the
      program always discards the "present" flag). */
  function Attr(n: Node, name: string): (v: string)
    ensures name !in n.attrs ==> v == ""
    ensures name in n.attrs ==> v == n.attrs[name]
  {
    if name in n.attrs then n.attrs[name] else ""
  }

  /** Position `i` holds the first element of `doc` carrying class `cls`. */
  ghost predicate FirstWith(doc: Document, cls: string, i: int) {
    && 0 <= i < |doc|
    && cls in doc[i].classes
    && forall j | 0 <= j < i :: cls !in doc[j].classes
  }

  /** The elements of `doc` carrying class `cls`, in document order. */
  function Find(doc: Document, cls: string): (sel: seq<Node>)
    ensures |sel| <= |doc|
    ensures forall n :: n in sel <==> n in doc && cls in n.classes
    ensures sel == [] <==> forall i | 0 <= i < |doc| :: cls !in doc[i].classes
    ensures forall i | FirstWith(doc, cls, i) :: sel != [] && sel[0] == doc[i]
  {
    if |doc| == 0 then []
    else
      var rest := Find(doc[1..], cls);
      assert forall i | FirstWith(doc, cls, i) && i > 0 :: FirstWith(doc[1..], cls, i - 1);
      assert forall i | 0 <= i < |doc[1..]| :: doc[1..][i] == doc[i + 1];
      if cls in doc[0].classes then [doc[0]] + rest else rest
  }

  /** Selecting from a concatenation selects from each part in turn. */
  lemma {:induction false} FindConcat(a: Document, b: Document, cls: string)
    ensures Find(a + b, cls) == Find(a, cls) + Find(b, cls)
    decreases |a|
  {
    if |a| == 0 {
      assert a + b == b;
    } else {
      assert (a + b)[1..] == a[1..] + b;
      FindConcat(a[1..], b, cls);
    }
  }
}
