/** Line-level text handling of the configuration package (common/config/config.go, read.go). */
module ConfigText {

  // ---------------------------------------------------------------- white space

  /** unicode.IsSpace */
  predicate IsSpace(c: char) {
    || c == ' ' || c == '\t' || c == '\n' || c == '\U{0B}' || c == '\U{0C}' || c == '\r'
    || c == '\U{85}' || c == '\U{A0}' || c == '\U{1680}' || '\U{2000}' <= c <= '\U{200A}'
    || c == '\U{2028}' || c == '\U{2029}' || c == '\U{202F}' || c == '\U{205F}' || c == '\U{3000}'
  }

  function TrimLeft(s: string): string {
    if s != "" && IsSpace(s[0]) then TrimLeft(s[1..]) else s
  }

  function TrimRight(s: string): string {
    if s != "" && IsSpace(s[|s| - 1]) then TrimRight(s[..|s| - 1]) else s
  }

  function TrimSpace(s: string): string {
    TrimRight(TrimLeft(s))
  }

  predicate AllSpace(s: string) {
    forall i :: 0 <= i < |s| ==> IsSpace(s[i])
  }

  predicate Trimmed(s: string) {
    s != "" ==> !IsSpace(s[0]) && !IsSpace(s[|s| - 1])
  }

  lemma {:induction false} TrimRightSpec(s: string)
    ensures TrimRight(s) <= s
    ensures AllSpace(s[|TrimRight(s)|..])
    ensures TrimRight(s) != "" ==> !IsSpace(TrimRight(s)[|TrimRight(s)| - 1])
  {
    if s != "" && IsSpace(s[|s| - 1]) {
      TrimRightSpec(s[..|s| - 1]);
    }
  }

  lemma {:induction false} TrimLeftSpec(s: string) returns (k: nat)
    ensures k <= |s| && TrimLeft(s) == s[k..]
    ensures AllSpace(s[..k])
    ensures k < |s| ==> !IsSpace(s[k])
  {
    if s != "" && IsSpace(s[0]) {
      var j := TrimLeftSpec(s[1..]);
      k := j + 1;
    } else {
      k := 0;
    }
  }

  lemma TrimSpaceIsTrimmed(s: string)
    ensures Trimmed(TrimSpace(s))
    ensures |TrimSpace(s)| <= |s|
  {
    var k := TrimLeftSpec(s);
    TrimRightSpec(TrimLeft(s));
  }

  lemma {:induction false} TrimRightPadded(s: string, pad: string)
    requires s != "" ==> !IsSpace(s[|s| - 1])
    requires AllSpace(pad)
    ensures TrimRight(s + pad) == s
    decreases |pad|
  {
    if pad == "" {
      assert s + pad == s;
    } else {
      assert (s + pad)[..|s + pad| - 1] == s + pad[..|pad| - 1];
      TrimRightPadded(s, pad[..|pad| - 1]);
    }
  }

  lemma {:induction false} TrimLeftPadded(pad: string, s: string)
    requires s != "" ==> !IsSpace(s[0])
    requires AllSpace(pad)
    ensures TrimLeft(pad + s) == s
    decreases |pad|
  {
    if pad == "" {
      assert pad + s == s;
    } else {
      assert (pad + s)[1..] == pad[1..] + s;
      TrimLeftPadded(pad[1..], s);
    }
  }

  /** Padding a trimmed text on either side does not show after trimming. */
  lemma TrimSpacePadded(left: string, s: string, right: string)
    requires Trimmed(s) && AllSpace(left) && AllSpace(right)
    ensures TrimSpace(left + s + right) == s
  {
    if s == "" {
      TrimLeftPadded(left + right, "");
      assert left + s + right == (left + right) + "";
    } else {
      TrimLeftPadded(left, s + right);
      assert left + s + right == left + (s + right);
      TrimRightPadded(s, right);
    }
  }

  // ---------------------------------------------------------------- comments

  /** A comment starts with ';' or '#' preceded by a space or a tab. */
  predicate CommentAt(l: string, i: int) {
    0 <= i && i + 1 < |l| && (l[i] == ' ' || l[i] == '\t') && (l[i + 1] == ';' || l[i + 1] == '#')
  }

  function FirstComment(l: string): (k: nat)
    ensures k <= |l|
    ensures k < |l| ==> CommentAt(l, k)
    ensures forall j :: 0 <= j < k ==> !CommentAt(l, j)
  {
    FirstCommentFrom(l, 0)
  }

  function FirstCommentFrom(l: string, i: nat): (k: nat)
    requires i <= |l|
    requires forall j :: 0 <= j < i ==> !CommentAt(l, j)
    ensures k <= |l|
    ensures k < |l| ==> CommentAt(l, k)
    ensures forall j :: 0 <= j < k ==> !CommentAt(l, j)
    decreases |l| - i
  {
    if i == |l| || CommentAt(l, i) then i else FirstCommentFrom(l, i + 1)
  }

  predicate NoComment(l: string) {
    forall i :: 0 <= i < |l| ==> !CommentAt(l, i)
  }

  /** What is left of a line once its comment is gone. */
  function Uncommented(l: string): string {
    l[..FirstComment(l)]
  }

  lemma UncommentedWhole(l: string)
    ensures Uncommented(l) == l <==> NoComment(l)
  {
  }

  predicate PairAt(l: string, pair: (char, char), i: int) {
    0 <= i && i + 1 < |l| && l[i] == pair.0 && l[i + 1] == pair.1
  }

  /** strings.Index for a two-character pattern. */
  method Index(l: string, pair: (char, char)) returns (i: int)
    ensures i == -1 || PairAt(l, pair, i)
    ensures forall j :: 0 <= j < (if i == -1 then |l| else i) ==> !PairAt(l, pair, j)
  {
    i := 0;
    while i + 1 < |l|
      invariant 0 <= i
      invariant forall j :: 0 <= j < i ==> !PairAt(l, pair, j)
    {
      if l[i] == pair.0 && l[i + 1] == pair.1 {
        return;
      }
      i := i + 1;
    }
    i := -1;
  }

  const MARKERS: seq<(char, char)> := [(' ', ';'), ('\t', ';'), (' ', '#'), ('\t', '#')]

  /**
   * Cutting at one marker after another leaves exactly the text before the earliest of the four:
   * a cut never falls inside another marker.
   */
  method StripComments(line: string) returns (l: string)
    ensures l == Uncommented(line)
  {
    l := line;
    for n := 0 to 4
      invariant l <= line
      invariant |l| < |line| ==> CommentAt(line, |l|)
      invariant forall m, j :: 0 <= m < n && 0 <= j < |l| ==> !PairAt(line, MARKERS[m], j)
    {
      var i := Index(l, MARKERS[n]);
      var cut := if i == -1 then |l| else i;
      forall j | 0 <= j < cut
        ensures !PairAt(line, MARKERS[n], j)
      {
        assert !PairAt(l, MARKERS[n], j);
      }
      if i != -1 {
        l := l[..i];
      }
    }
    forall j | 0 <= j < |l|
      ensures !CommentAt(line, j)
    {
      assert !PairAt(line, MARKERS[0], j) && !PairAt(line, MARKERS[1], j);
      assert !PairAt(line, MARKERS[2], j) && !PairAt(line, MARKERS[3], j);
    }
  }
}
