/** The batch conversion of SsRefactor/ConvertToFullPropertyMenuCommand.cs:
    the selection is cut into property blocks, every block the recogniser
    accepts becomes a full property, re-indented like the block, and the
    converted blocks are joined with a blank line. */
module ConvertToFullPropertyMenuCommand {
  import opened Wrappers
  import opened Text
  import opened PropertyRegexHelper
  import opened ConvertToFullPropertyCommand

  /** What the recogniser can return: a record without a failure reason
      is an accepted one. */
  predicate Recognised(info: PropertyInfo) {
    info.noMatchReason.None? ==> IsSuccess(info)
  }

  /** The full property for an accepted record, without its final line
      break. */
  function TemplateFor(info: PropertyInfo): string
    requires IsSuccess(info)
  {
    TrimEndNewlines(FullPropertyText(info.typeName.value, BackingField(info), info.propertyName.value))
  }

  /** What a block with record `info` and indentation `indent` becomes:
      `None` for the failure record, otherwise the template with `indent`
      put in front of it and after each of its line feeds. */
  function Convert(info: PropertyInfo, indent: string): (r: Option<string>)
    requires Recognised(info)
    ensures r.Some? <==> info.noMatchReason.None?
  {
    if info.noMatchReason.Some? then None
    else Some(indent + IndentAfterNewlines(Join("\n", Split(TemplateFor(info), '\n')), indent))
  }

  /** What each block of a run becomes, given the record the recogniser
      returned for it and its indentation. */
  function Converts(infos: seq<PropertyInfo>, indents: seq<string>): (r: seq<Option<string>>)
    requires |indents| == |infos| && forall k :: 0 <= k < |infos| ==> Recognised(infos[k])
    ensures |r| == |infos| && forall k :: 0 <= k < |r| ==> r[k] == Convert(infos[k], indents[k])
  {
    seq(|infos|, k requires 0 <= k < |infos| => Convert(infos[k], indents[k]))
  }

  /** The converted blocks, in order, the rejected ones dropped. */
  function Kept(cs: seq<Option<string>>): (r: seq<string>)
    ensures |r| <= |cs|
  {
    if cs == [] then []
    else
      var n := |cs| - 1;
      Kept(cs[..n]) + (if cs[n].Some? then [cs[n].value] else [])
  }

  /** The conversions of a run of blocks, in order. */
  function Conversions(infos: seq<PropertyInfo>, indents: seq<string>): (r: seq<string>)
    requires |indents| == |infos| && forall k :: 0 <= k < |infos| ==> Recognised(infos[k])
  {
    Kept(Converts(infos, indents))
  }

  /** The record the recogniser returns for each block. */
  function Infos(blocks: seq<string>): (r: seq<PropertyInfo>)
    ensures |r| == |blocks|
    ensures forall k :: 0 <= k < |r| ==> r[k] == MatchProperty(blocks[k]) && Recognised(r[k])
  {
    seq(|blocks|, k requires 0 <= k < |blocks| => MatchProperty(blocks[k]))
  }

  /** The indentation of each block. */
  function Indents(blocks: seq<string>): (r: seq<string>)
    ensures |r| == |blocks|
    ensures forall k :: 0 <= k < |r| ==> r[k] == GetLeadingWhitespace(blocks[k])
  {
    seq(|blocks|, k requires 0 <= k < |blocks| => GetLeadingWhitespace(blocks[k]))
  }

  /** The separator between converted blocks. */
  const BlockSeparator: string := "\n\n"

  /** The text `Execute` inserts for a selection. */
  function Output(selectedText: string): string {
    var blocks := Blocks(Trim(selectedText));
    Join(BlockSeparator, Conversions(Infos(blocks), Indents(blocks)))
  }

  /** The body of the loop of `Execute` for one block: recognise it and,
      when it is accepted, re-indent the template like the block. */
  method ConvertBlock(block: string) returns (converted: Option<string>)
    ensures converted == Convert(MatchProperty(block), GetLeadingWhitespace(block))
  {
    var propInfo := MatchProperty(block);
    if propInfo.noMatchReason.None? {
      var output := TemplateFor(propInfo);
      var indent := GetLeadingWhitespace(block);
      var indentedOutput := IndentAfterNewlines(Join("\n", Split(output, '\n')), indent);
      converted := Some(indent + indentedOutput);
    } else {
      converted := None;
    }
  }

  /** The body of `Execute`: the trimmed selection is cut into blocks and
      each block is converted in turn; the joined text is inserted when it
      is not blank. */
  method ConvertSelection(selectedText: string) returns (finalOutput: string, replace: bool)
    ensures finalOutput == Output(selectedText)
    ensures replace <==> !Blank(finalOutput)
  {
    var selected := Trim(selectedText);
    var blocks := ExtractPropertyBlocks(selected);
    var convertedFields := ConvertBlocks(blocks);
    finalOutput := Join(BlockSeparator, convertedFields);
    replace := !Blank(finalOutput);
  }

  /** The loop of `Execute`: the conversions of the blocks, in order. */
  method ConvertBlocks(blocks: seq<string>) returns (convertedFields: seq<string>)
    ensures convertedFields == Conversions(Infos(blocks), Indents(blocks))
  {
    ghost var infos, indents := Infos(blocks), Indents(blocks);
    convertedFields := [];
    for i := 0 to |blocks|
      invariant convertedFields == Conversions(infos[..i], indents[..i])
    {
      var converted := ConvertBlock(blocks[i]);
      assert converted == Convert(infos[i], indents[i]);
      if converted.Some? {
        convertedFields := convertedFields + [converted.value];
      }
      ConversionsStep(infos, indents, i);
    }
    assert infos[..|blocks|] == infos && indents[..|blocks|] == indents;
  }

  // The conversions of one more block.
  lemma ConversionsStep(infos: seq<PropertyInfo>, indents: seq<string>, i: nat)
    requires |indents| == |infos| && forall k :: 0 <= k < |infos| ==> Recognised(infos[k])
    requires i < |infos|
    ensures var c := Convert(infos[i], indents[i]);
      Conversions(infos[..i + 1], indents[..i + 1])
        == Conversions(infos[..i], indents[..i]) + (if c.Some? then [c.value] else [])
  {
    var cs := Converts(infos[..i + 1], indents[..i + 1]);
    assert cs[..i] == Converts(infos[..i], indents[..i]);
  }

  // Dropping the rejected blocks of two runs one after the other.
  lemma {:induction false} KeptAppend(a: seq<Option<string>>, b: seq<Option<string>>)
    ensures Kept(a + b) == Kept(a) + Kept(b)
    decreases |b|
  {
    if b != [] {
      var n := |b| - 1;
      assert (a + b)[..|a + b| - 1] == a + b[..n];
      KeptAppend(a, b[..n]);
    } else {
      assert a + b == a;
    }
  }

  // ---------------------------------------------------------------------
  // Properties

  /** Without indentation the conversion is the plain template: the
      re-indentation is the identity. */
  lemma UnindentedIsTemplate(info: PropertyInfo)
    requires IsSuccess(info)
    ensures Convert(info, "") == Some(TemplateFor(info))
  {
    var t := TemplateFor(info);
    JoinSplit(t, '\n');
    var joined := Join("\n", Split(t, '\n'));
    assert joined == t;
    var r := IndentAfterNewlines(joined, "");
    assert r == joined;
    assert "" + r == r;
  }

  /** The blocks of a selection are trimmed, so none is indented. */
  lemma BlocksUnindented(selectedText: string)
    ensures var blocks := Blocks(Trim(selectedText));
      forall k :: 0 <= k < |blocks| ==> Indents(blocks)[k] == ""
  {
    var blocks := Blocks(Trim(selectedText));
    forall k | 0 <= k < |blocks| ensures Indents(blocks)[k] == "" {
      TrimmedHasNoIndent(blocks[k]);
    }
  }

  /** The template starts with `private ` and ends with the closing
      brace: only the last line break is trimmed. */
  lemma TemplateShape(info: PropertyInfo)
    requires IsSuccess(info)
    ensures LitAt(TemplateFor(info), 0, "private ")
    ensures var t := TemplateFor(info); t[|t| - 1] == '}'
  {
    var lines := FullPropertyLines(info.typeName.value, BackingField(info), info.propertyName.value);
    var head := AppendLines(lines[..5]);
    assert lines[..5] + ["}"] == lines;
    AppendLinesSnoc(lines[..5], "}");
    var x := head + "}";
    assert FullPropertyText(info.typeName.value, BackingField(info), info.propertyName.value) == x + NewLine;
    TrimEndLineBreak(x);
    assert head == lines[0] + NewLine + AppendLines(lines[1..5]);
    assert x[..8] == lines[0][..8] == "private ";
  }

  /** The templates of the accepted records, in order. */
  function Templates(infos: seq<PropertyInfo>): (r: seq<string>)
    requires forall k :: 0 <= k < |infos| ==> Recognised(infos[k])
    ensures forall k :: 0 <= k < |r| ==> LitAt(r[k], 0, "private ")
    decreases |infos|
  {
    if infos == [] then []
    else
      var n := |infos| - 1;
      if infos[n].noMatchReason.Some? then Templates(infos[..n])
      else
        assert Recognised(infos[n]);
        TemplateShape(infos[n]);
        Templates(infos[..n]) + [TemplateFor(infos[n])]
  }

  /** Converting keeps the order of the blocks: the conversions of two runs
      of blocks are those of the first followed by those of the second. */
  lemma ConversionsAppend(a: seq<PropertyInfo>, ia: seq<string>, b: seq<PropertyInfo>, ib: seq<string>)
    requires |ia| == |a| && |ib| == |b|
    requires forall k :: 0 <= k < |a| ==> Recognised(a[k])
    requires forall k :: 0 <= k < |b| ==> Recognised(b[k])
    ensures Conversions(a + b, ia + ib) == Conversions(a, ia) + Conversions(b, ib)
  {
    assert Converts(a + b, ia + ib) == Converts(a, ia) + Converts(b, ib);
    KeptAppend(Converts(a, ia), Converts(b, ib));
  }

  /** Without indentation the conversions are exactly the templates of the
      accepted records, in order. */
  lemma {:induction false} UnindentedConversions(infos: seq<PropertyInfo>, indents: seq<string>)
    requires |indents| == |infos| && forall k :: 0 <= k < |infos| ==> Recognised(infos[k])
    requires forall k :: 0 <= k < |indents| ==> indents[k] == ""
    ensures Conversions(infos, indents) == Templates(infos)
    decreases |infos|
  {
    if infos != [] {
      var n := |infos| - 1;
      var cs := Converts(infos, indents);
      assert cs[..n] == Converts(infos[..n], indents[..n]);
      UnindentedConversions(infos[..n], indents[..n]);
      if infos[n].noMatchReason.None? {
        UnindentedIsTemplate(infos[n]);
      }
    }
  }

  /** No template comes out exactly when every record is the failure
      record. */
  lemma {:induction false} TemplatesEmptyIff(infos: seq<PropertyInfo>)
    requires forall k :: 0 <= k < |infos| ==> Recognised(infos[k])
    ensures Templates(infos) == [] <==> forall k :: 0 <= k < |infos| ==> infos[k].noMatchReason.Some?
    decreases |infos|
  {
    if infos != [] {
      var n := |infos| - 1;
      TemplatesEmptyIff(infos[..n]);
      assert forall k :: 0 <= k < n ==> infos[..n][k] == infos[k];
    }
  }

  /** The blocks the recogniser rejects, all of them. */
  predicate NoneAccepted(blocks: seq<string>) {
    forall k :: 0 <= k < |blocks| ==> MatchProperty(blocks[k]).noMatchReason.Some?
  }

  /** For a selection, the output is the templates of the accepted blocks,
      in order, joined by a blank line: no indentation is added. */
  lemma OutputIsTemplates(selectedText: string)
    ensures var blocks := Blocks(Trim(selectedText));
      Output(selectedText) == Join(BlockSeparator, Templates(Infos(blocks)))
  {
    var blocks := Blocks(Trim(selectedText));
    BlocksUnindented(selectedText);
    UnindentedConversions(Infos(blocks), Indents(blocks));
  }

  /** The joined templates are empty exactly when every record is the
      failure record, and blank exactly then too. */
  lemma {:induction false} JoinedTemplatesEmptyIff(infos: seq<PropertyInfo>)
    requires forall k :: 0 <= k < |infos| ==> Recognised(infos[k])
    ensures var out := Join(BlockSeparator, Templates(infos));
      && (out == [] <==> forall k :: 0 <= k < |infos| ==> infos[k].noMatchReason.Some?)
      && (!Blank(out) <==> !forall k :: 0 <= k < |infos| ==> infos[k].noMatchReason.Some?)
  {
    var ts := Templates(infos);
    TemplatesEmptyIff(infos);
    if ts != [] {
      assert LitAt(ts[0], 0, "private ");
      assert ts[0][0] == 'p';
      JoinStartsWith(BlockSeparator, ts);
    }
  }

  /** The output is empty exactly when no block of the selection was
      accepted, and it is inserted (it is not blank) exactly when some
      block was. */
  lemma OutputEmptyIff(selectedText: string)
    ensures Output(selectedText) == [] <==> NoneAccepted(Blocks(Trim(selectedText)))
    ensures !Blank(Output(selectedText)) <==> !NoneAccepted(Blocks(Trim(selectedText)))
  {
    OutputIsTemplates(selectedText);
    BlockTemplatesEmptyIff(Blocks(Trim(selectedText)));
  }

  // The same, for the templates of the blocks' records.
  lemma BlockTemplatesEmptyIff(blocks: seq<string>)
    ensures var out := Join(BlockSeparator, Templates(Infos(blocks)));
      && (out == [] <==> NoneAccepted(blocks))
      && (!Blank(out) <==> !NoneAccepted(blocks))
  {
    var infos := Infos(blocks);
    JoinedTemplatesEmptyIff(infos);
    assert NoneAccepted(blocks) <==> forall k :: 0 <= k < |infos| ==> infos[k].noMatchReason.Some?;
  }

  // A join starts with its first part when that part is non-empty.
  lemma JoinStartsWith(sep: string, parts: seq<string>)
    requires parts != [] && parts[0] != []
    ensures Join(sep, parts) != [] && Join(sep, parts)[0] == parts[0][0]
  {
  }
}
