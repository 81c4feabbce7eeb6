/** The JavaScript string operations the log viewer relies on, over
    strings as sequences of characters: `Array.prototype.join('\n')`,
    `String.prototype.split('\n')`, the one-shot regular-expression
    replacement `txt.replace(/(PREFIX).*\/, ...)`, and the decimal rendering
    of a non-negative integer in a template literal. */
module Text {
  import opened Wrappers

  /** `lines.join('\n')`. */
  function Join(lines: seq<string>): string
  {
    if |lines| == 0 then ""
    else if |lines| == 1 then lines[0]
    else lines[0] + "\n" + Join(lines[1..])
  }

  /** `s.split('\n')`: the pieces between newline characters; the empty
      string splits into one empty piece. */
  function Split(s: string): (pieces: seq<string>)
    ensures |pieces| > 0
  {
    if s == [] then [""]
    else
      var rest := Split(s[1..]);
      if s[0] == '\n' then [""] + rest
      else [[s[0]] + rest[0]] + rest[1..]
  }

  function CountNewlines(s: string): nat
  {
    if s == [] then 0
    else CountNewlines(s[1..]) + (if s[0] == '\n' then 1 else 0)
  }

  /** The `body.split('\n').length` measure of a manifest body. */
  function LineCount(s: string): nat
  {
    |Split(s)|
  }

  predicate NoNewline(s: string)
  {
    forall k :: 0 <= k < |s| ==> s[k] != '\n'
  }

  /** Splitting yields one more piece than there are newline characters. */
  lemma {:induction false} LineCountIsNewlinesPlusOne(s: string)
    ensures LineCount(s) == CountNewlines(s) + 1
  {
    if s != [] {
      LineCountIsNewlinesPlusOne(s[1..]);
    }
  }

  lemma JoinCons(head: string, tail: seq<string>)
    requires |tail| > 0
    ensures Join([head] + tail) == head + "\n" + Join(tail)
  {
    assert ([head] + tail)[1..] == tail;
  }

  /** Joining the pieces of a split restores the string. */
  lemma {:induction false} JoinSplit(s: string)
    ensures Join(Split(s)) == s
  {
    if s != [] {
      JoinSplit(s[1..]);
      JoinSplitStep(s);
    }
  }

  lemma JoinSplitStep(s: string)
    requires s != [] && Join(Split(s[1..])) == s[1..]
    ensures Join(Split(s)) == s
  {
    if s[0] == '\n' {
      JoinSplitNewline(s);
    } else {
      JoinSplitChar(s);
    }
  }

  lemma JoinSplitNewline(s: string)
    requires s != [] && s[0] == '\n' && Join(Split(s[1..])) == s[1..]
    ensures Join(Split(s)) == s
  {
    var rest := Split(s[1..]);
    assert Split(s) == [""] + rest;
    JoinCons("", rest);
    assert s == "\n" + s[1..];
  }

  lemma JoinSplitChar(s: string)
    requires s != [] && s[0] != '\n' && Join(Split(s[1..])) == s[1..]
    ensures Join(Split(s)) == s
  {
    var rest := Split(s[1..]);
    var head := [s[0]] + rest[0];
    assert Split(s) == [head] + rest[1..];
    if |rest| == 1 {
      assert [head] + rest[1..] == [head];
      assert rest[0] == s[1..];
    } else {
      var tail := Join(rest[1..]);
      assert [rest[0]] + rest[1..] == rest;
      calc {
        Join(Split(s));
        { JoinCons(head, rest[1..]); }
        head + "\n" + tail;
        { ConsAssoc(s[0], rest[0], tail); }
        [s[0]] + (rest[0] + "\n" + tail);
        { JoinCons(rest[0], rest[1..]); }
        [s[0]] + Join(rest);
      }
    }
    assert s == [s[0]] + s[1..];
  }

  lemma ConsAssoc(c: char, a: string, b: string)
    ensures [c] + a + "\n" + b == [c] + (a + "\n" + b)
  {
  }

  lemma SplitNoNewline(s: string)
    requires NoNewline(s)
    ensures Split(s) == [s]
  {
    if s != [] {
      SplitNoNewline(s[1..]);
      assert [s[0]] + s[1..] == s;
    }
  }

  lemma SplitAppend(a: string, b: string)
    requires NoNewline(a)
    ensures Split(a + "\n" + b) == [a] + Split(b)
  {
    if a == [] {
      assert a + "\n" + b == "\n" + b;
      assert ("\n" + b)[1..] == b;
    } else {
      assert (a + "\n" + b)[1..] == a[1..] + "\n" + b;
      SplitAppend(a[1..], b);
      assert [a[0]] + a[1..] == a;
    }
  }

  /** Splitting the join of newline-free lines gives the lines back (so
      the line count of a serialised playlist is its number of lines, as
      `StringifiedLineCount` draws out). */
  lemma {:induction false} SplitJoin(lines: seq<string>)
    requires |lines| > 0
    requires forall k :: 0 <= k < |lines| ==> NoNewline(lines[k])
    ensures Split(Join(lines)) == lines
  {
    if |lines| == 1 {
      SplitNoNewline(lines[0]);
    } else {
      SplitJoin(lines[1..]);
      SplitAppend(lines[0], Join(lines[1..]));
      assert [lines[0]] + lines[1..] == lines;
    }
  }

  /** The characters a JavaScript `.` does not match. */
  predicate IsLineTerminator(c: char)
  {
    c == '\n' || c == '\r' || c == '\U{2028}' || c == '\U{2029}'
  }

  predicate OccursAt(txt: string, pat: string, at: nat)
  {
    at + |pat| <= |txt| && txt[at..at + |pat|] == pat
  }

  /** The leftmost occurrence of `pat` in `txt` at or after `from`. */
  function FindFrom(txt: string, pat: string, from: nat): (r: Option<nat>)
    requires from <= |txt|
    ensures r.Some? ==> from <= r.value && OccursAt(txt, pat, r.value)
    ensures r.Some? ==> forall j :: from <= j < r.value ==> !OccursAt(txt, pat, j)
    ensures r.None? ==> forall j :: from <= j ==> !OccursAt(txt, pat, j)
    decreases |txt| - from
  {
    if from + |pat| > |txt| then None
    else if txt[from..from + |pat|] == pat then Some(from)
    else if from == |txt| then None
    else FindFrom(txt, pat, from + 1)
  }

  /** The end of the line that position `from` lies on: the first line
      terminator at or after `from`, or the end of the text. */
  function LineEnd(txt: string, from: nat): (e: nat)
    requires from <= |txt|
    ensures from <= e <= |txt|
    ensures forall k :: from <= k < e ==> !IsLineTerminator(txt[k])
    ensures e < |txt| ==> IsLineTerminator(txt[e])
    decreases |txt| - from
  {
    if from == |txt| || IsLineTerminator(txt[from]) then from
    else LineEnd(txt, from + 1)
  }

  /** `txt.replace(/(directive).*\/, '$1<b>' + value + '</b>')`: the first
      occurrence of the directive keeps its text and the rest of its line is
      replaced by the bold-wrapped value; a text without the directive is
      returned as it is. */
  function ReplaceDirective(txt: string, directive: string, value: string): (r: string)
    ensures FindFrom(txt, directive, 0).None? ==> r == txt
  {
    match FindFrom(txt, directive, 0)
    case None => txt
    case Some(i) => ReplaceAt(txt, i + |directive|, value)
  }

  /** The text before `s` kept, the rest of the line replaced by the bold
      value, the line terminator and what follows kept. */
  function ReplaceAt(txt: string, s: nat, value: string): string
    requires s <= |txt|
  {
    txt[..s] + Bold(value) + txt[LineEnd(txt, s)..]
  }

  function Bold(value: string): string
  {
    "<b>" + value + "</b>"
  }

  predicate OnOneLine(s: string)
  {
    forall k :: 0 <= k < |s| ==> !IsLineTerminator(s[k])
  }

  /** The substitution leaves the text before the value and after the end
      of the directive's line alone, and puts the bold value in between. */
  lemma ReplaceDirectiveShape(txt: string, directive: string, value: string, i: nat)
    requires FindFrom(txt, directive, 0) == Some(i)
    ensures var s := i + |directive|;
            var r := ReplaceDirective(txt, directive, value);
            && r[..s] == txt[..s]
            && r[s..s + |Bold(value)|] == Bold(value)
            && r[s + |Bold(value)|..] == txt[LineEnd(txt, s)..]
  {
    var s := i + |directive|;
    ReplaceDirectiveAt(txt, directive, value, i);
    ThreeParts(txt[..s], Bold(value), txt[LineEnd(txt, s)..]);
  }

  lemma ReplaceDirectiveAt(txt: string, directive: string, value: string, i: nat)
    requires FindFrom(txt, directive, 0) == Some(i)
    ensures i + |directive| <= |txt|
    ensures ReplaceDirective(txt, directive, value) == ReplaceAt(txt, i + |directive|, value)
  {
  }

  lemma ThreeParts(x: string, y: string, z: string)
    ensures (x + y + z)[..|x|] == x
    ensures (x + y + z)[|x|..|x| + |y|] == y
    ensures (x + y + z)[|x| + |y|..] == z
  {
  }

  /** A text that agrees with `txt` up to the end of the first occurrence
      of `pat` has its first occurrence at the same place. */
  lemma FirstOccurrenceKept(txt: string, r: string, pat: string, i: nat)
    requires FindFrom(txt, pat, 0) == Some(i)
    requires i + |pat| <= |r| && r[..i + |pat|] == txt[..i + |pat|]
    ensures FindFrom(r, pat, 0) == Some(i)
  {
    OccurrencesKept(txt, r, pat, i);
    FindFromFirst(r, pat, i);
  }

  lemma OccurrencesKept(txt: string, r: string, pat: string, i: nat)
    requires FindFrom(txt, pat, 0) == Some(i)
    requires i + |pat| <= |r| && r[..i + |pat|] == txt[..i + |pat|]
    ensures OccursAt(r, pat, i)
    ensures forall j :: 0 <= j < i ==> !OccursAt(r, pat, j)
  {
    var s := i + |pat|;
    forall j | 0 <= j <= i
      ensures OccursAt(r, pat, j) == OccursAt(txt, pat, j)
    {
      PrefixSlice(txt, r, s, j, j + |pat|);
    }
  }

  lemma PrefixSlice(a: string, b: string, s: nat, lo: nat, hi: nat)
    requires lo <= hi <= s <= |a| && s <= |b| && a[..s] == b[..s]
    ensures a[lo..hi] == b[lo..hi]
  {
    forall k | lo <= k < hi
      ensures a[k] == b[k]
    {
      assert a[k] == a[..s][k] && b[k] == b[..s][k];
    }
  }

  /** An occurrence at `i` with none before it is what the search finds. */
  lemma FindFromFirst(txt: string, pat: string, i: nat)
    requires OccursAt(txt, pat, i)
    requires forall j :: 0 <= j < i ==> !OccursAt(txt, pat, j)
    ensures FindFrom(txt, pat, 0) == Some(i)
  {
    var r := FindFrom(txt, pat, 0);
    assert r.Some?;
    assert !(r.value < i);
  }

  /** A one-line piece followed by a line terminator or the end of the
      text ends its line. */
  lemma LineEndAfter(pre: string, mid: string, post: string)
    requires OnOneLine(mid)
    requires post != [] ==> IsLineTerminator(post[0])
    ensures LineEnd(pre + mid + post, |pre|) == |pre| + |mid|
  {
    var t := pre + mid + post;
    forall k | |pre| <= k < |pre| + |mid|
      ensures !IsLineTerminator(t[k])
    {
      assert t[k] == mid[k - |pre|];
    }
    if post != [] {
      assert t[|pre| + |mid|] == post[0];
    }
  }

  /** Only the first occurrence is affected: substituting a second time
      with the same one-line value changes nothing. */
  lemma ReplaceDirectiveIdempotent(txt: string, directive: string, value: string)
    requires OnOneLine(value)
    ensures var r := ReplaceDirective(txt, directive, value);
            ReplaceDirective(r, directive, value) == r
  {
    match FindFrom(txt, directive, 0)
    case None =>
    case Some(i) =>
      ReplaceDirectiveAt(txt, directive, value, i);
      IdempotentAt(txt, directive, value, i);
  }

  lemma IdempotentAt(txt: string, directive: string, value: string, i: nat)
    requires OnOneLine(value) && FindFrom(txt, directive, 0) == Some(i)
    requires i + |directive| <= |txt|
    ensures var s := i + |directive|;
            var r := txt[..s] + Bold(value) + txt[LineEnd(txt, s)..];
            ReplaceDirective(r, directive, value) == r
  {
    var s := i + |directive|;
    var b := Bold(value);
    var e := LineEnd(txt, s);
    var r := txt[..s] + b + txt[e..];
    ThreeParts(txt[..s], b, txt[e..]);
    assert |txt[..s]| == s;
    FirstOccurrenceKept(txt, r, directive, i);
    BoldOnOneLine(value);
    LineEndAfter(txt[..s], b, txt[e..]);
    Reassembled(r, directive, value, i);
  }

  /** A text whose first occurrence is already followed by the bold value
      up to the end of its line is what the substitution returns. */
  lemma Reassembled(r: string, directive: string, value: string, i: nat)
    requires FindFrom(r, directive, 0) == Some(i)
    requires var s := i + |directive|;
             s + |Bold(value)| <= |r| && LineEnd(r, s) == s + |Bold(value)|
             && r[s..s + |Bold(value)|] == Bold(value)
    ensures ReplaceDirective(r, directive, value) == r
  {
    var s := i + |directive|;
    var b := Bold(value);
    ReplaceDirectiveAt(r, directive, value, i);
    CutTwice(r, s, s + |b|);
  }

  lemma CutTwice(x: string, i: nat, j: nat)
    requires i <= j <= |x|
    ensures x == x[..i] + x[i..j] + x[j..]
  {
    assert x[..j] == x[..i] + x[i..j];
  }

  lemma BoldOnOneLine(value: string)
    requires OnOneLine(value)
    ensures OnOneLine(Bold(value))
  {
    var b := Bold(value);
    forall k | 0 <= k < |b|
      ensures !IsLineTerminator(b[k])
    {
      if 3 <= k < 3 + |value| {
        assert b[k] == value[k - 3];
      }
    }
  }

  function Digit(d: nat): char
    requires d < 10
  {
    "0123456789"[d]
  }

  /** The decimal rendering of `${n}` for a non-negative integer. */
  function Decimal(n: nat): (s: string)
    ensures |s| > 0
    ensures forall k :: 0 <= k < |s| ==> '0' <= s[k] <= '9'
  {
    if n < 10 then [Digit(n)] else Decimal(n / 10) + [Digit(n % 10)]
  }

  /** The value of a string of decimal digits. */
  function DecimalValue(s: string): nat
    requires forall k :: 0 <= k < |s| ==> '0' <= s[k] <= '9'
  {
    if s == [] then 0
    else DecimalValue(s[..|s| - 1]) * 10 + ((s[|s| - 1] as int) - ('0' as int))
  }

  /** Rendering is exact: reading the digits back gives the number. */
  lemma {:induction false} DecimalRoundTrip(n: nat)
    ensures DecimalValue(Decimal(n)) == n
  {
    if n >= 10 {
      DecimalRoundTrip(n / 10);
      var s := Decimal(n);
      assert s[..|s| - 1] == Decimal(n / 10);
    }
  }

  lemma DecimalOnOneLine(n: nat)
    ensures OnOneLine(Decimal(n))
  {
  }
}
