/** SsRefactor/ConvertToFullPropertyCommand.cs: a recognised property is
    re-emitted as a full property whose getter and `SetProperty` setter go
    through a backing field. */
module ConvertToFullPropertyCommand {
  import opened Wrappers
  import opened Text
  import opened PropertyRegexHelper

  /** The backing field of the emitted property: the field the recogniser
      found, or `_` and the property name with its first letter in lower
      case. */
  function BackingField(info: PropertyInfo): (f: string)
    requires IsSuccess(info)
    ensures info.fieldName.Some? ==> f == info.fieldName.value
    ensures info.fieldName.None? ==> |f| == |info.propertyName.value| + 1 && f[0] == '_'
    ensures info.fieldName.None? ==> f == FieldNameFor(info.propertyName.value)
  {
    if info.fieldName.Some? then info.fieldName.value else FieldNameFor(info.propertyName.value)
  }

  /** An Observable field converted to a full property keeps its own name
      as the backing field; a property name that starts with a lower-case
      letter or a non-letter capitalises back to the same field. */
  lemma ObservableFieldKept(text: string)
    requires MatchProperty(text).kind == Some("Observable")
    ensures BackingField(MatchProperty(text)) == MatchProperty(text).fieldName.value
    ensures
      var f := MatchProperty(text).fieldName.value;
      |f| >= 2 && f[0] == '_' && MatchProperty(text).propertyName == Some(Capitalize(f[1..]))
  {
    ObservableIff(text);
  }

  /** The six lines of the emitted property. */
  function FullPropertyLines(ty: string, field: string, name: string): (lines: seq<string>)
    ensures |lines| == 6
  {
    ["private " + ty + " " + field + ";",
     "public " + ty + " " + name,
     "{",
     "    get => " + field + ";",
     "    set => SetProperty(ref " + field + ", value);",
     "}"]
  }

  /** The text of the emitted property, each line ended by a line break. */
  function FullPropertyText(ty: string, field: string, name: string): string {
    AppendLines(FullPropertyLines(ty, field, name))
  }

  /** The emitted text has exactly six lines: cut at line feeds it gives
      the field declaration, the property head, `{`, the getter and the
      setter naming the same field, and `}`, each ending in a carriage
      return, and nothing after the last line break. The field and the
      property carry the same type text. */
  lemma FullPropertySixLines(ty: string, field: string, name: string)
    requires !HasChar(ty, '\n') && !HasChar(field, '\n') && !HasChar(name, '\n')
    ensures Split(FullPropertyText(ty, field, name), '\n') ==
      ["private " + ty + " " + field + ";\r",
       "public " + ty + " " + name + "\r",
       "{\r",
       "    get => " + field + ";\r",
       "    set => SetProperty(ref " + field + ", value);\r",
       "}\r",
       ""]
  {
    var lines := FullPropertyLines(ty, field, name);
    forall k | 0 <= k < 6 ensures !HasChar(lines[k], '\n') {
      NoLineFeedIn(lines, k, ty, field, name);
    }
    SplitAppendLines(lines);
    var pieces := seq(|lines|, k requires 0 <= k < |lines| => lines[k] + "\r");
    assert pieces == [lines[0] + "\r", lines[1] + "\r", lines[2] + "\r", lines[3] + "\r",
                      lines[4] + "\r", lines[5] + "\r"];
    assert lines[0] + "\r" == "private " + ty + " " + field + ";\r";
    assert lines[1] + "\r" == "public " + ty + " " + name + "\r";
    assert lines[3] + "\r" == "    get => " + field + ";\r";
    assert lines[4] + "\r" == "    set => SetProperty(ref " + field + ", value);\r";
    assert lines[2] + "\r" == "{\r" && lines[5] + "\r" == "}\r";
  }

  // Each template line is literal text around `ty`, `field` and `name`.
  lemma NoLineFeedIn(lines: seq<string>, k: nat, ty: string, field: string, name: string)
    requires lines == FullPropertyLines(ty, field, name) && k < 6
    requires !HasChar(ty, '\n') && !HasChar(field, '\n') && !HasChar(name, '\n')
    ensures !HasChar(lines[k], '\n')
  {
    var l := lines[k];
    forall j | 0 <= j < |l| ensures l[j] != '\n' {
      if k == 0 {
        if 8 <= j < 8 + |ty| { assert l[j] == ty[j - 8]; }
        else if 9 + |ty| <= j < 9 + |ty| + |field| { assert l[j] == field[j - 9 - |ty|]; }
      } else if k == 1 {
        if 7 <= j < 7 + |ty| { assert l[j] == ty[j - 7]; }
        else if 8 + |ty| <= j { assert l[j] == name[j - 8 - |ty|]; }
      } else if k == 3 {
        if 11 <= j < 11 + |field| { assert l[j] == field[j - 11]; }
      } else if k == 4 {
        if 27 <= j < 27 + |field| { assert l[j] == field[j - 27]; }
      }
    }
  }

  // The buffer after line `k` is appended.
  lemma Appended(lines: seq<string>, k: nat, sb: string)
    requires k < |lines|
    requires sb == AppendLines(lines[..k]) + lines[k] + NewLine
    ensures sb == AppendLines(lines[..k + 1])
  {
    assert lines[..k + 1] == lines[..k] + [lines[k]];
    AppendLinesSnoc(lines[..k], lines[k]);
  }

  /** `ConvertToFullProperty`: recognise the selected text and append the
      six lines of the full property to a buffer. The match must have
      succeeded: on the failure record the property name is null and the
      field synthesis dereferences it. */
  method ConvertToFullProperty(selectedText: string) returns (r: string)
    requires MatchProperty(selectedText).noMatchReason.None?
    ensures
      var info := MatchProperty(selectedText);
      IsSuccess(info) && r == FullPropertyText(info.typeName.value, BackingField(info), info.propertyName.value)
  {
    var info := MatchProperty(selectedText);
    r := AppendFullProperty(info.typeName.value, BackingField(info), info.propertyName.value);
  }

  /** The buffer part of `ConvertToFullProperty`: the six lines, each
      followed by a line break. */
  method AppendFullProperty(ty: string, field: string, propertyName: string) returns (sb: string)
    ensures sb == FullPropertyText(ty, field, propertyName)
  {
    ghost var lines := FullPropertyLines(ty, field, propertyName);
    sb := "";
    assert sb == AppendLines(lines[..0]);
    var line0 := "private " + ty + " " + field + ";";
    sb := sb + line0 + NewLine;
    Appended(lines, 0, sb);
    var line1 := "public " + ty + " " + propertyName;
    sb := sb + line1 + NewLine;
    Appended(lines, 1, sb);
    var line2 := "{";
    sb := sb + line2 + NewLine;
    Appended(lines, 2, sb);
    var line3 := "    get => " + field + ";";
    sb := sb + line3 + NewLine;
    Appended(lines, 3, sb);
    var line4 := "    set => SetProperty(ref " + field + ", value);";
    sb := sb + line4 + NewLine;
    Appended(lines, 4, sb);
    var line5 := "}";
    sb := sb + line5 + NewLine;
    Appended(lines, 5, sb);
    assert lines[..6] == lines;
  }
}
