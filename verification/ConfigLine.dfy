/** How one line of a configuration file is understood (common/config/read.go). */
module ConfigLine {
  import opened ConfigText

  /** What a line says, before the parser's section and option state is consulted. */
  datatype Line =
    | Blank
    | Header(name: string)
    | Indented(text: string)
    | Setting(option: string, value: string)
    | Bad

  predicate IsMark(c: char) { c == '=' || c == ':' }

  /** strings.IndexAny(l, "=:"), the length of the line when there is none. */
  function FirstMark(l: string): (k: nat)
    ensures k <= |l|
    ensures k < |l| ==> IsMark(l[k])
    ensures forall j :: 0 <= j < k ==> !IsMark(l[j])
  {
    if l == "" || IsMark(l[0]) then 0 else 1 + FirstMark(l[1..])
  }

  function Clean(line: string): string {
    TrimRight(Uncommented(line))
  }

  function Classify(line: string): Line {
    Understand(Clean(line))
  }

  function Understand(l: string): Line {
    if l == "" || l[0] == '#' || l[0] == ';' then Blank
    else if l[0] == '[' && l[|l| - 1] == ']' then
      // a lone "[" does not end in "]", so there is room for both brackets
      assert |l| >= 2;
      Header(TrimSpace(l[1..|l| - 1]))
    else if l[0] == ' ' || l[0] == '\t' then Indented(TrimSpace(l))
    else
      var i := FirstMark(l);
      if 0 < i < |l| then Setting(TrimSpace(l[..i]), TrimSpace(l[i + 1..])) else Bad
  }

  // ---------------------------------------------------------------- separators

  function Spaces(b: bool): string { if b then " " else "" }

  function Separator(mark: char, preSpace: bool, postSpace: bool): string {
    Spaces(preSpace) + [mark] + Spaces(postSpace)
  }

  // ---------------------------------------------------------------- printed settings, exactly

  /** What a caller must check of an option and value before printing them on one line. */
  predicate SettingOk(option: string, value: string, separator: string) {
    && option != "" && Trimmed(option) && Trimmed(value)
    && option[0] != '#' && option[0] != ';'
    && (forall i :: 0 <= i < |option| ==> !IsMark(option[i]))
    && NoComment(option + separator + value)
    && !(option[0] == '[' && value != "" && value[|value| - 1] == ']')
  }

  lemma FirstMarkAt(l: string, k: nat)
    requires k < |l| && IsMark(l[k])
    requires forall j :: 0 <= j < k ==> !IsMark(l[j])
    ensures FirstMark(l) == k
  {
  }

  /** The printed line once the trailing blanks of an empty value are gone. */
  lemma CleanSetting(option: string, value: string, mark: char, preSpace: bool, postSpace: bool)
    requires IsMark(mark)
    requires SettingOk(option, value, Separator(mark, preSpace, postSpace))
    ensures Clean(option + Separator(mark, preSpace, postSpace) + value)
         == option + Spaces(preSpace) + [mark] + (if value == "" then "" else Spaces(postSpace) + value)
  {
    var l := option + Separator(mark, preSpace, postSpace) + value;
    UncommentedWhole(l);
    var head := option + Spaces(preSpace) + [mark];
    if value == "" {
      assert l == head + Spaces(postSpace);
      TrimRightPadded(head, Spaces(postSpace));
    } else {
      assert l == head + (Spaces(postSpace) + value);
      TrimRightPadded(l, "");
      assert l + "" == l;
    }
  }

  /** A line whose first mark follows `left` splits there. */
  lemma UnderstandSplits(left: string, mark: char, right: string)
    requires IsMark(mark) && left != ""
    requires left[0] != '#' && left[0] != ';' && left[0] != ' ' && left[0] != '\t'
    requires forall i :: 0 <= i < |left| ==> !IsMark(left[i])
    requires !(left[0] == '[' && right != "" && right[|right| - 1] == ']')
    ensures Understand(left + [mark] + right) == Setting(TrimSpace(left), TrimSpace(right))
  {
    var l := left + [mark] + right;
    FirstMarkAt(l, |left|);
    assert l[..|left|] == left && l[|left| + 1..] == right;
  }

  lemma SettingReadsBack(option: string, value: string, mark: char, preSpace: bool, postSpace: bool)
    requires IsMark(mark)
    requires SettingOk(option, value, Separator(mark, preSpace, postSpace))
    ensures Classify(option + Separator(mark, preSpace, postSpace) + value) == Setting(option, value)
  {
    CleanSetting(option, value, mark, preSpace, postSpace);
    var right := if value == "" then "" else Spaces(postSpace) + value;
    UnderstandSplits(option + Spaces(preSpace), mark, right);
    TrimBefore(option, preSpace);
    TrimAfter(value, postSpace);
  }

  lemma TrimBefore(option: string, space: bool)
    requires Trimmed(option)
    ensures TrimSpace(option + Spaces(space)) == option
  {
    TrimSpacePadded("", option, Spaces(space));
    assert "" + option + Spaces(space) == option + Spaces(space);
  }

  lemma TrimAfter(value: string, space: bool)
    requires Trimmed(value)
    ensures TrimSpace(if value == "" then "" else Spaces(space) + value) == value
  {
    if value != "" {
      TrimSpacePadded(Spaces(space), value, "");
      assert Spaces(space) + value + "" == Spaces(space) + value;
    }
  }

  lemma CleanIsPrefix(line: string)
    ensures Clean(line) <= line
    ensures !NoComment(line) ==> |Clean(line)| + 2 <= |line|
  {
    TrimRightSpec(Uncommented(line));
  }

  /** Conversely, a setting understood from a line fixes where its mark was. */
  lemma SplitOfSetting(l: string, option: string, value: string) returns (i: nat)
    requires Understand(l) == Setting(option, value)
    ensures 0 < i < |l| && IsMark(l[i]) && (forall j :: 0 <= j < i ==> !IsMark(l[j]))
    ensures option == TrimSpace(l[..i]) && value == TrimSpace(l[i + 1..])
    ensures l[0] != '#' && l[0] != ';' && l[0] != ' ' && l[0] != '\t'
    ensures !(l[0] == '[' && l[|l| - 1] == ']')
    ensures Trimmed(option) && Trimmed(value)
    ensures forall j :: 0 <= j < |option| ==> !IsMark(option[j])
    ensures |value| <= |l| - i - 1
  {
    i := FirstMark(l);
    TrimSpaceIsTrimmed(l[..i]);
    TrimSpaceIsTrimmed(l[i + 1..]);
    OptionHasNoMark(l[..i]);
  }

  lemma MarkOfPrinted(option: string, value: string, mark: char, preSpace: bool, postSpace: bool)
    requires IsMark(mark)
    requires forall j :: 0 <= j < |option| ==> !IsMark(option[j])
    ensures var line := option + Separator(mark, preSpace, postSpace) + value;
      var at := |option| + |Spaces(preSpace)|;
      && at < |line| && IsMark(line[at])
      && (forall j :: 0 <= j < at ==> !IsMark(line[j]))
      && |line| == at + 1 + |Spaces(postSpace)| + |value|
      && (option != "" ==> line[0] == option[0])
      && (value != "" ==> line[|line| - 1] == value[|value| - 1])
      && (option == "" ==> at == 0 || line[0] == ' ')
  {
  }

  lemma OnlyGoodSettingsReadBack(option: string, value: string, mark: char, preSpace: bool, postSpace: bool)
    requires IsMark(mark)
    requires Classify(option + Separator(mark, preSpace, postSpace) + value) == Setting(option, value)
    ensures SettingOk(option, value, Separator(mark, preSpace, postSpace))
  {
    hide Classify, Understand, Uncommented, TrimRight, TrimSpace;
    var line := option + Separator(mark, preSpace, postSpace) + value;
    var l := Clean(line);
    CleanIsPrefix(line);
    assert Understand(l) == Setting(option, value) by { ClassifyCleans(line); }
    var i := SplitOfSetting(l, option, value);
    MarkOfPrinted(option, value, mark, preSpace, postSpace);
    assert l[0] == line[0] && l[i] == line[i];
    assert i == |option| + |Spaces(preSpace)|;
    assert NoComment(line);
    UncommentedWhole(line);
    if value != "" {
      TrimRightPadded(line, "");
      assert line + "" == line;
    }
  }

  lemma ClassifyCleans(line: string)
    ensures Classify(line) == Understand(Clean(line))
  {
  }

  lemma OptionHasNoMark(s: string)
    requires forall j :: 0 <= j < |s| ==> !IsMark(s[j])
    ensures forall j :: 0 <= j < |TrimSpace(s)| ==> !IsMark(TrimSpace(s)[j])
  {
    var k := TrimLeftSpec(s);
    TrimRightSpec(TrimLeft(s));
  }

  /** A printed option line is read back as the very same option and value exactly when it is well formed. */
  lemma SettingRoundTrip(option: string, value: string, mark: char, preSpace: bool, postSpace: bool)
    requires IsMark(mark)
    ensures Classify(option + Separator(mark, preSpace, postSpace) + value) == Setting(option, value)
       <==> SettingOk(option, value, Separator(mark, preSpace, postSpace))
  {
    if SettingOk(option, value, Separator(mark, preSpace, postSpace)) {
      SettingReadsBack(option, value, mark, preSpace, postSpace);
    }
    if Classify(option + Separator(mark, preSpace, postSpace) + value) == Setting(option, value) {
      OnlyGoodSettingsReadBack(option, value, mark, preSpace, postSpace);
    }
  }

  // ---------------------------------------------------------------- printed section names, exactly

  predicate NameOk(name: string) {
    Trimmed(name) && NoComment("[" + name + "]")
  }

  /** A printed section line is read back as the same section exactly when its name is well formed. */
  lemma HeaderRoundTrip(name: string)
    ensures Classify("[" + name + "]") == Header(name) <==> NameOk(name)
  {
    var line := "[" + name + "]";
    UncommentedWhole(line);
    CleanIsPrefix(line);
    TrimRightPadded(line, "");
    assert line + "" == line;
    if NameOk(name) {
      assert line[1..|line| - 1] == "" + name + "";
      TrimSpacePadded("", name, "");
    }
    if Classify(line) == Header(name) {
      var l := Clean(line);
      TrimSpaceIsTrimmed(l[1..|l| - 1]);
    }
  }

  /** Header comments never mean anything to the reader. */
  lemma CommentLineIsBlank(line: string)
    requires line != "" && (line[0] == '#' || line[0] == ';')
    ensures Classify(line) == Blank
  {
    CleanIsPrefix(line);
  }

  lemma EmptyLineIsBlank()
    ensures Classify("") == Blank
  {
    CleanIsPrefix("");
  }
}
