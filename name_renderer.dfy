/**
 * The name field of the signup form: one text input that edits a structured
 * name `{first, last}`. `ParseValue` turns the text typed into the box into a
 * name record and remembers whether the text ended with a space; `Render` turns
 * a record, with that remembered flag, back into the text shown in the box.
 */
module NameRendererComponent {
  import opened JsString

  /** A JavaScript value that is either `undefined` or present. */
  datatype Option<T> = None | Some(value: T)

  /** `x || ''` for a string-or-undefined: only a non-empty string survives. */
  function OrEmpty(x: Option<string>): (s: string)
    ensures s == [] <==> !Truthy(x)
    ensures Truthy(x) ==> s == x.value
  {
    match x
    case None => []
    case Some(v) => v
  }

  /** JavaScript truthiness of a string-or-undefined: the only falsy values
      are `undefined` and the empty string. */
  predicate Truthy(x: Option<string>)
  {
    x.Some? && x.value != []
  }

  /** The form value of the field: each part may be missing. */
  datatype NameRecord = NameRecord(first: Option<string>, last: Option<string>)

  /** The regular-expression test `/ $/`: the text ends with a space, however
      many spaces precede it. Equivalently, splitting the text on spaces leaves
      an empty last piece after at least one space. */
  predicate HasTrailingSpace(text: string): (b: bool)
    ensures b <==> |Split(text, ' ')| > 1 && Split(text, ' ')[|Split(text, ' ')| - 1] == []
  {
    EndsWithSeparator(text, ' ');
    |text| > 0 && text[|text| - 1] == ' '
  }

  /** The record that `parseValue` builds: the first space-separated piece,
      and the other pieces re-joined, or `undefined` when there is only one. */
  function Parse(text: string): (name: NameRecord)
    ensures name.first.Some? && ' ' !in name.first.value
    ensures |name.first.value| <= |text| && text[..|name.first.value|] == name.first.value
    ensures name.last.None? <==> ' ' !in text
  {
    var parts := Split(text, ' ');
    NameRecord(Some(parts[0]), if |parts| > 1 then Some(Join(parts[1..], ' ')) else None)
  }

  /** `renderValue`: no record shows as the empty text; otherwise the first
      name, a single space when the flag is set or the last name is non-empty,
      and the last name. Missing parts show as empty text. */
  function Render(transformedValue: Option<NameRecord>, trailingSpace: bool): (text: string)
    ensures transformedValue.None? ==> text == []
    ensures transformedValue.Some? ==>
      var first := OrEmpty(transformedValue.value.first);
      var last := OrEmpty(transformedValue.value.last);
      var spaced := trailingSpace || last != [];
      && |text| == |first| + (if spaced then 1 else 0) + |last|
      && text[..|first|] == first
      && (spaced ==> text[|first|] == ' ')
      && text[|text| - |last|..] == last
  {
    match transformedValue
    case None => []
    case Some(name) =>
      var first := OrEmpty(name.first);
      var last := OrEmpty(name.last);
      var space := if trailingSpace || Truthy(name.last) then " " else "";
      first + space + last
  }

  /** The input component. Its one piece of state is the trailing-space flag
      that a parse records and the next render reads. */
  class NameRenderer {
    var trailingSpace: bool

    /** A fresh component has never parsed: the flag is unset (falsy). */
    constructor ()
      ensures !trailingSpace
    {
      trailingSpace := false;
    }

    /** The computed `renderValue`, reading the component's own flag: the
        first name is followed by a space when the flag is set or the last
        name is non-empty. */
    function RenderValue(transformedValue: Option<NameRecord>): (text: string)
      reads this
      ensures transformedValue.None? ==> text == []
      ensures transformedValue.Some? ==>
        var first := OrEmpty(transformedValue.value.first);
        var last := OrEmpty(transformedValue.value.last);
        text == first + (if trailingSpace || last != [] then " " else "") + last
    {
      Render(transformedValue, trailingSpace)
    }

    /** `parseValue(target)` with `target.value` given as `value`: stores the
        trailing-space flag in the component and returns the record. */
    method ParseValue(value: string) returns (name: NameRecord)
      modifies this
      ensures trailingSpace == HasTrailingSpace(value)
      ensures name == Parse(value)
    {
      trailingSpace := HasTrailingSpace(value);
      name := Parse(value);
    }
  }

  /** One edit of the box: the text typed is parsed into the form value, and
      the box is redrawn from that value and the component's flag. The text
      shown is the text typed. */
  method EditCycle(component: NameRenderer, typed: string) returns (shown: string)
    modifies component
    ensures component.trailingSpace == HasTrailingSpace(typed)
    ensures shown == typed
  {
    var name := component.ParseValue(typed);
    shown := component.RenderValue(Some(name));
    RenderParse(typed);
  }

  /** Text without a space is all first name, and the last name is undefined. */
  lemma ParseNoSpace(text: string)
    requires ' ' !in text
    ensures Parse(text) == NameRecord(Some(text), None)
  {
    SplitNoSeparator(text, ' ');
  }

  /** Text with a first space at index i: the first name is what precedes it
      and the last name is everything after it, unchanged. */
  lemma ParseAtFirstSpace(text: string, i: nat)
    requires i < |text| && text[i] == ' ' && ' ' !in text[..i]
    ensures Parse(text) == NameRecord(Some(text[..i]), Some(text[i + 1..]))
  {
    assert text == text[..i] + [' '] + text[i + 1..];
    SplitAtFirst(text[..i], ' ', text[i + 1..]);
    JoinSplit(text[i + 1..], ' ');
  }

  /** Every text that holds a space has a first one. */
  lemma {:induction false} FirstSpace(text: string)
    requires ' ' in text
    ensures exists i :: 0 <= i < |text| && text[i] == ' ' && ' ' !in text[..i]
  {
    if text[0] == ' ' {
      assert text[..0] == [];
    } else {
      FirstSpace(text[1..]);
      var j :| 0 <= j < |text[1..]| && text[1..][j] == ' ' && ' ' !in text[1..][..j];
      assert text[..j + 1] == [text[0]] + text[1..][..j];
      assert text[j + 1] == ' ';
    }
  }

  /** The last name is undefined exactly when the text has no space; when it
      has one, the first name holds no space and first, a space and last
      spell the text. */
  lemma ParseLast(text: string)
    ensures Parse(text).first.Some?
    ensures Parse(text).last.None? <==> ' ' !in text
    ensures ' ' in text ==>
      && Parse(text).last.Some?
      && ' ' !in Parse(text).first.value
      && Parse(text).first.value + " " + Parse(text).last.value == text
  {
    if ' ' in text {
      FirstSpace(text);
      var i :| 0 <= i < |text| && text[i] == ' ' && ' ' !in text[..i];
      ParseAtFirstSpace(text, i);
      assert text[..i] + " " + text[i + 1..] == text;
    } else {
      ParseNoSpace(text);
    }
  }

  /** Rendering the record that a parse of the text built, with the flag that
      same parse recorded, gives back the text exactly. */
  lemma RenderParse(text: string)
    ensures Render(Some(Parse(text)), HasTrailingSpace(text)) == text
  {
    ParseLast(text);
    if ' ' in text {
      TrailingSpaceOfParse(text);
      var name := Parse(text);
      assert Render(Some(name), HasTrailingSpace(text)) == name.first.value + " " + name.last.value;
    } else {
      ParseNoSpace(text);
      if |text| > 0 {
        assert text[|text| - 1] in text;
      }
    }
  }

  /** The flag a parse records is set exactly when the parse found a last
      name that is empty or ends with a space. */
  lemma TrailingSpaceOfParse(text: string)
    ensures HasTrailingSpace(text) <==>
      && Parse(text).last.Some?
      && var last := Parse(text).last.value;
         last == [] || last[|last| - 1] == ' '
  {
    ParseLast(text);
    if ' ' in text {
      var first, last := Parse(text).first.value, Parse(text).last.value;
      assert first + " " + last == text;
      if last != [] {
        assert text[|text| - 1] == last[|last| - 1];
      } else {
        assert text[|text| - 1] == ' ';
      }
    } else if |text| > 0 {
      assert text[|text| - 1] in text;
    }
  }

  /** The other direction: a record whose first name is a string without a
      space parses back from its rendering, provided the rendering keeps the
      difference between an undefined and an empty last name (an undefined
      last name with the flag unset, an empty one with the flag set). The
      flag the re-parse records then says whether the last name is empty or
      ends with a space. */
  lemma ParseRender(name: NameRecord, trailingSpace: bool)
    requires name.first.Some? && ' ' !in name.first.value
    requires name.last.None? ==> !trailingSpace
    requires name.last == Some([]) ==> trailingSpace
    ensures Parse(Render(Some(name), trailingSpace)) == name
    ensures HasTrailingSpace(Render(Some(name), trailingSpace)) <==>
      name.last.Some? && (name.last.value == [] || name.last.value[|name.last.value| - 1] == ' ')
  {
    var first := name.first.value;
    var text := Render(Some(name), trailingSpace);
    match name.last
    case None =>
      assert text == first;
      ParseNoSpace(text);
      if |text| > 0 {
        assert text[|text| - 1] in first;
      }
    case Some(last) =>
      assert text == first + " " + last;
      assert text[..|first|] == first;
      ParseAtFirstSpace(text, |first|);
      assert text[|first| + 1..] == last;
      if last != [] {
        assert text[|text| - 1] == last[|last| - 1];
      }
  }

  /** Where the other direction loses information: an empty last name without
      the flag renders as the bare first name, which parses with the last name
      undefined. */
  lemma RenderDropsEmptyLast(first: string)
    requires ' ' !in first
    ensures Render(Some(NameRecord(Some(first), Some([]))), false) == first
    ensures Parse(Render(Some(NameRecord(Some(first), Some([]))), false)) == NameRecord(Some(first), None)
  {
    ParseNoSpace(first);
  }

  /** Where the other direction loses information: a space inside the first
      name moves everything after it into the last name. */
  lemma RenderMovesSpacedFirst(before: string, after: string, last: string)
    requires ' ' !in before
    ensures Parse(Render(Some(NameRecord(Some(before + " " + after), Some(last))), true))
         == NameRecord(Some(before), Some(after + " " + last))
  {
    var text := Render(Some(NameRecord(Some(before + " " + after), Some(last))), true);
    assert text == before + " " + (after + " " + last);
    assert text[..|before|] == before;
    ParseAtFirstSpace(text, |before|);
    assert text[|before| + 1..] == after + " " + last;
  }

  /** A missing first or last name renders exactly as an empty one, and a
      missing record renders as the empty text. */
  lemma RenderMissingAsEmpty(name: NameRecord, trailingSpace: bool)
    ensures Render(None, trailingSpace) == []
    ensures Render(Some(NameRecord(None, name.last)), trailingSpace)
         == Render(Some(NameRecord(Some([]), name.last)), trailingSpace)
    ensures Render(Some(NameRecord(name.first, None)), trailingSpace)
         == Render(Some(NameRecord(name.first, Some([]))), trailingSpace)
  {
  }

  /** "Ada " keeps an empty, not undefined, last name and sets the flag;
      "Ada" has an undefined last name and leaves the flag unset. */
  lemma ParseTrailingSpaceExample()
    ensures Parse("Ada ") == NameRecord(Some("Ada"), Some("")) && HasTrailingSpace("Ada ")
    ensures Parse("Ada") == NameRecord(Some("Ada"), None) && !HasTrailingSpace("Ada")
    ensures Render(Some(NameRecord(Some("Ada"), None)), true) == "Ada "
  {
    ParseAtFirstSpace("Ada ", 3);
    ParseNoSpace("Ada");
  }

  /** Two trailing spaces set the flag just as one does; the last name is
      then the second space. */
  lemma ParseTwoTrailingSpacesExample()
    ensures Parse("Ada  ") == NameRecord(Some("Ada"), Some(" ")) && HasTrailingSpace("Ada  ")
  {
    assert "Ada  "[..3] == "Ada" && "Ada  "[4..] == " ";
    ParseAtFirstSpace("Ada  ", 3);
  }

  /** The empty text is an empty first name with no last name. */
  lemma ParseEmptyExample()
    ensures Parse("") == NameRecord(Some(""), None) && !HasTrailingSpace("")
  {
  }

  /** A last name of several pieces is kept whole. */
  lemma ParseMultiPartLastExample()
    ensures Parse("Mary Jane Watson") == NameRecord(Some("Mary"), Some("Jane Watson"))
  {
    var text := "Mary Jane Watson";
    assert text[..4] == "Mary" && text[5..] == "Jane Watson";
    ParseAtFirstSpace(text, 4);
  }
}
