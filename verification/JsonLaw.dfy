/** The promise of the library as a whole: what is printed can be parsed again, and nothing is leaked on the way. */
module JsonLaw {
  import opened Bytes
  import J = JsonValues
  import R = JsonRoundTrip
  import opened JsonTree
  import opened JsonDuplicate
  import opened JsonParser
  import opened JsonPrinter

  /**
    Prints a tree, in either layout, and parses the text. For a plain value within the nesting limit this yields
    a separate tree with the same value unless memory is refused or the text is too long to print; for a value
    nested more deeply it never yields a tree.
    */
  method PrintAndParse(item: Node, formatted: bool, codec: J.Codec, heap: Heap, ghost s: Shape)
    returns (copy: Node?, ghost tree: Option<Shape>)
    requires item == s.node && Linked(s, true) && Strings(s) && J.Plain(Val(s), codec)
    modifies heap
    ensures var v := old(Val(s)); var t := J.Text(v, J.Layout(formatted, codec), 0);
            if copy != null then
              && J.Nesting(v) <= 1000
              && tree.Some? && copy == tree.value.node && Sound(tree.value) && Val(tree.value) == v
              && fresh(Owned(tree.value)) && heap.live == old(heap.live) + Owned(tree.value)
            else
              && (J.Nesting(v) > 1000 || |t| + 2 > INT_MAX || heap.RefusedSince(old(heap.calls)))
              && heap.live == old(heap.live)
  {
    hide Val, Linked, Strings, NodesAll, Blocks, Owned, Sound, J.Text, J.Plain, J.Printable, J.ParseText;
    ghost var v := Val(s);
    PlainIsPrintable(v, codec);
    copy, tree := null, None;
    var r := Print(item, formatted, codec, heap, s);
    if r == null {
      return;
    }
    ghost var t := J.Text(v, J.Layout(formatted, codec), 0);
    var text := r[..r.Length - 1];
    assert text == t;
    R.PrintedTextParses(v, J.Layout(formatted, codec), true);
    heap.ReleaseBlock(r);
    var end;
    copy, end, tree := ParseWithOpts(text, true, codec, heap);
  }

  lemma {:induction false} PlainIsPrintable(v: J.Json, k: J.Codec)
    requires J.Plain(v, k)
    ensures J.Printable(v, k)
    decreases v
  {
    match v
    case Array(es) => PlainElemsPrintable(es, k);
    case Object(ms) => PlainMembersPrintable(ms, k);
    case _ =>
  }

  lemma {:induction false} PlainElemsPrintable(es: J.Elems, k: J.Codec)
    requires J.PlainElems(es, k)
    ensures J.PrintableElems(es, k)
    decreases es
  {
    if es.Elem? {
      PlainIsPrintable(es.head, k);
      PlainElemsPrintable(es.tail, k);
    }
  }

  lemma {:induction false} PlainMembersPrintable(ms: J.Members, k: J.Codec)
    requires J.PlainMembers(ms, k)
    ensures J.PrintableMembers(ms, k)
    decreases ms
  {
    if ms.Member? {
      PlainIsPrintable(ms.value, k);
      PlainMembersPrintable(ms.rest, k);
    }
  }
}
