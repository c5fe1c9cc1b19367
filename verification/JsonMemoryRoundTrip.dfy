/** Printing items and parsing the text: new items that hold the same value. */
module JsonMemoryRoundTrip {
  import opened Bytes
  import opened Options
  import opened JsonNumbers
  import opened JsonText
  import opened JsonItems
  import opened JsonTrees
  import opened JsonPrinter
  import opened JsonParser
  import opened JsonRoundTrip

  /** cJSON_Parse(cJSON_Print(item)): a copy, for every printable value nested within the limit whose
      text fits. */
  method PrintThenParse(item: Item, ghost tree: Tree, ghost v: Json, format: bool)
    returns (copy: Item?, ghost copied: Option<Tree>)
    requires tree.root == item && Holds(tree, v) && Printable(v)
    ensures copy != null <==> |Render(v, format, 0)| + 2 <= INT_MAX && Nesting(v) <= NESTING_LIMIT
    ensures copy != null ==>
              && copied.Some? && copied.value.root == copy && Holds(copied.value, v)
              && fresh(copied.value.Nodes())
  {
    hide Holds, Printable, Render, Nesting, Parse;
    copied := None;
    var printed := Print(item, tree, v, format);
    if printed == null {
      return null, None;
    }
    ParsingUndoesPrinting(v, format);
    ParseStopsAtNul(Render(v, format, 0)) by {
      RenderHasNoNul(v, format, 0);
    }
    copy, copied := ParseText(printed[..]);
  }

  lemma ParseStopsAtNul(text: seq<byte>)
    requires 0 !in text
    ensures Parse(text + [0]) == Parse(text)
  {
    hide ParseValue, SkipWhitespace;
    var c := CString(text + [0]);
    assert forall k :: 0 <= k < |text| ==> (text + [0])[k] == text[k];
    assert |c| >= |text|;
    assert (text + [0])[|text|] == 0;
    assert c == text;
  }
}
