/**
 * Class and year labels derived from the segments of a file's repository
 * path (`extractClass` and `extractYear` in app.js).  Each regular
 * expression is modelled twice: as the declarative shape of the match that
 * JavaScript returns, and as a left-to-right scanner; the scanner's contract
 * ties the two together.
 */
module PathLabels {
  import opened Text

  // ---------------------------------------------------------------------
  // The class pattern /(?:class|grade)[\s_-]*(\d+)/i
  // ---------------------------------------------------------------------

  /** `class` or `grade`, in any ASCII case, starts at offset `i`. */
  predicate KeywordAt(s: string, i: nat)
  {
    && i + 5 <= |s|
    && var c0, c1, c2, c3, c4 := LowerChar(s[i]), LowerChar(s[i + 1]), LowerChar(s[i + 2]),
                                 LowerChar(s[i + 3]), LowerChar(s[i + 4]);
       (c0 == 'c' && c1 == 'l' && c2 == 'a' && c3 == 's' && c4 == 's')
       || (c0 == 'g' && c1 == 'r' && c2 == 'a' && c3 == 'd' && c4 == 'e')
  }

  /** The keyword test is the case-insensitive comparison of the five characters at `i`. */
  lemma KeywordAtIsLowerWord(s: string, i: nat)
    requires i + 5 <= |s|
    ensures KeywordAt(s, i) <==> Lower(s[i..i + 5]) == "class" || Lower(s[i..i + 5]) == "grade"
  {
    var w := Lower(s[i..i + 5]);
    assert forall k :: 0 <= k < 5 ==> w[k] == LowerChar(s[i + k]);
    if KeywordAt(s, i) {
      assert w == "class" || w == "grade";
    }
    if w == "class" || w == "grade" {
      assert w[0] == LowerChar(s[i]) && w[4] == LowerChar(s[i + 4]);
    }
  }

  /** `[\s_-]` */
  predicate IsSeparator(c: char)
  {
    IsJsSpace(c) || c == '_' || c == '-'
  }

  /**
   * The match JavaScript reports for the class pattern when it starts at
   * `start`: the keyword, separators up to `from`, then the digits
   * `s[from..to]`, with no further digit at `to` (`\d+` is greedy).
   */
  ghost predicate ClassMatchAt(s: string, start: nat, from: nat, to: nat)
  {
    && KeywordAt(s, start)
    && start + 5 <= from < to <= |s|
    && (forall t :: start + 5 <= t < from ==> IsSeparator(s[t]))
    && (forall t :: from <= t < to ==> IsDigit(s[t]))
    && (to == |s| || !IsDigit(s[to]))
  }

  /** At a given start there is at most one match: the capture is determined. */
  lemma ClassMatchUnique(s: string, start: nat, from: nat, to: nat, from': nat, to': nat)
    requires ClassMatchAt(s, start, from, to) && ClassMatchAt(s, start, from', to')
    ensures from == from' && to == to'
  {
    ClassMatchIsScanned(s, start, from, to);
    ClassMatchIsScanned(s, start, from', to');
  }

  /** A match found by the shape is the one the scanner finds: the separator run, then the digit run. */
  lemma ClassMatchIsScanned(s: string, start: nat, from: nat, to: nat)
    requires ClassMatchAt(s, start, from, to)
    ensures from == SeparatorsEnd(s, start + 5) && to == DigitsEnd(s, from)
  {
    assert IsDigit(s[from]) && !IsSeparator(s[from]);
    var k := SeparatorsEnd(s, start + 5);
    assert k <= from;
    var m := DigitsEnd(s, from);
    assert to <= m;
  }

  /** End of the run of separators that starts at `j`. */
  function SeparatorsEnd(s: string, j: nat): (k: nat)
    requires j <= |s|
    ensures j <= k <= |s|
    ensures forall t :: j <= t < k ==> IsSeparator(s[t])
    ensures k == |s| || !IsSeparator(s[k])
    decreases |s| - j
  {
    if j == |s| || !IsSeparator(s[j]) then j else SeparatorsEnd(s, j + 1)
  }

  /** End of the run of digits that starts at `j`. */
  function DigitsEnd(s: string, j: nat): (k: nat)
    requires j <= |s|
    ensures j <= k <= |s|
    ensures forall t :: j <= t < k ==> IsDigit(s[t])
    ensures k == |s| || !IsDigit(s[k])
    decreases |s| - j
  {
    if j == |s| || !IsDigit(s[j]) then j else DigitsEnd(s, j + 1)
  }

  /** Positions of a class-pattern match: the capture group is `s[from..to]`. */
  datatype ClassMatch = ClassMatch(start: nat, from: nat, to: nat)

  /** Tries the pattern at offsets `i`, `i + 1`, ... and reports the first match. */
  function ClassMatchFrom(s: string, i: nat): (r: Option<ClassMatch>)
    requires i <= |s|
    ensures r.Some? ==> i <= r.value.start && r.value.start + 5 <= r.value.from < r.value.to <= |s|
    decreases |s| - i
  {
    var k := if KeywordAt(s, i) then SeparatorsEnd(s, i + 5) else i;
    if KeywordAt(s, i) && k < |s| && IsDigit(s[k]) then
      Some(ClassMatch(i, k, DigitsEnd(s, k)))
    else if i == |s| then
      None
    else
      ClassMatchFrom(s, i + 1)
  }

  /** What the scanner reports is a match of the pattern. */
  lemma {:induction false} ClassMatchFromIsMatch(s: string, i: nat)
    requires i <= |s|
    ensures var r := ClassMatchFrom(s, i);
      r.Some? ==> ClassMatchAt(s, r.value.start, r.value.from, r.value.to)
    decreases |s| - i
  {
    var k := if KeywordAt(s, i) then SeparatorsEnd(s, i + 5) else i;
    if !(KeywordAt(s, i) && k < |s| && IsDigit(s[k])) && i < |s| {
      ClassMatchFromIsMatch(s, i + 1);
    }
  }

  /** The scanner misses no match: any match at `i` or later starts no earlier than the one it reports. */
  lemma {:induction false} ClassMatchFromIsLeftmost(s: string, i: nat)
    requires i <= |s|
    ensures forall st, f, t :: i <= st && ClassMatchAt(s, st, f, t) ==>
              ClassMatchFrom(s, i).Some? && ClassMatchFrom(s, i).value.start <= st
    decreases |s| - i
  {
    var k := if KeywordAt(s, i) then SeparatorsEnd(s, i + 5) else i;
    if !(KeywordAt(s, i) && k < |s| && IsDigit(s[k])) && i < |s| {
      var r := ClassMatchFrom(s, i + 1);
      assert ClassMatchFrom(s, i) == r;
      ClassMatchFromIsLeftmost(s, i + 1);
      NoClassMatchAt(s, i);
      forall st, f, t | i <= st && ClassMatchAt(s, st, f, t)
        ensures r.Some? && r.value.start <= st
      {
        assert i + 1 <= st;
      }
    }
  }

  /** Where the scanner finds no digit after the keyword and its separators, nothing matches. */
  lemma NoClassMatchAt(s: string, i: nat)
    requires i <= |s|
    requires !(KeywordAt(s, i) && SeparatorsEnd(s, i + 5) < |s| && IsDigit(s[SeparatorsEnd(s, i + 5)]))
    ensures forall f, t :: !ClassMatchAt(s, i, f, t)
  {
    forall f: nat, t: nat | ClassMatchAt(s, i, f, t) ensures false {
      ClassMatchIsScanned(s, i, f, t);
    }
  }

  /** `part.match(/(?:class|grade)[\s_-]*(\d+)/i)`: the leftmost match, if any. */
  function FindClass(part: string): (r: Option<ClassMatch>)
    ensures r.Some? ==> r.value.start + 5 <= r.value.from < r.value.to <= |part|
  {
    ClassMatchFrom(part, 0)
  }

  /**
   * The match reported is a match and the leftmost one, and there is none
   * exactly when the segment has no match.
   */
  lemma FindClassIsLeftmost(part: string)
    ensures FindClass(part).Some? ==>
              ClassMatchAt(part, FindClass(part).value.start, FindClass(part).value.from, FindClass(part).value.to)
    ensures FindClass(part).Some? ==>
              forall st, f, t :: ClassMatchAt(part, st, f, t) ==> FindClass(part).value.start <= st
    ensures FindClass(part).None? <==> forall st, f, t :: !ClassMatchAt(part, st, f, t)
  {
    ClassMatchFromIsMatch(part, 0);
    ClassMatchFromIsLeftmost(part, 0);
  }

  /** The digits captured by the leftmost class match of a segment that has one. */
  function ClassCapture(part: string): (d: string)
    requires FindClass(part).Some?
    ensures |d| >= 1 && forall t :: 0 <= t < |d| ==> IsDigit(d[t])
  {
    var m := FindClass(part).value;
    ClassMatchFromIsMatch(part, 0);
    part[m.from..m.to]
  }

  /** A match with no keyword before it is the leftmost one, and its digits are the capture. */
  lemma CaptureOfLeftmost(s: string, start: nat, from: nat, to: nat)
    requires ClassMatchAt(s, start, from, to)
    requires forall st :: 0 <= st < start ==> !KeywordAt(s, st)
    ensures FindClass(s).Some? && ClassCapture(s) == s[from..to]
  {
    FindClassIsLeftmost(s);
    var m := FindClass(s).value;
    assert m.start == start;
    ClassMatchUnique(s, start, m.from, m.to, from, to);
  }

  /** Index of the first segment, at `i` or later, in which the class pattern matches. */
  function FirstClassSegment(parts: seq<string>, i: nat): (r: Option<nat>)
    requires i <= |parts|
    ensures r.Some? ==> i <= r.value < |parts| && FindClass(parts[r.value]).Some?
    decreases |parts| - i
  {
    if i == |parts| then None
    else if FindClass(parts[i]).Some? then Some(i)
    else FirstClassSegment(parts, i + 1)
  }

  /** No segment before the one reported matches, and none is reported exactly when no segment matches. */
  lemma {:induction false} FirstClassSegmentIsFirst(parts: seq<string>, i: nat)
    requires i <= |parts|
    ensures FirstClassSegment(parts, i).Some? ==>
              forall j :: i <= j < FirstClassSegment(parts, i).value ==> FindClass(parts[j]).None?
    ensures FirstClassSegment(parts, i).None? <==> forall j :: i <= j < |parts| ==> FindClass(parts[j]).None?
    decreases |parts| - i
  {
    if i < |parts| {
      if FindClass(parts[i]).None? {
        FirstClassSegmentIsFirst(parts, i + 1);
        assert FirstClassSegment(parts, i) == FirstClassSegment(parts, i + 1);
      } else {
        assert FirstClassSegment(parts, i) == Some(i);
      }
    }
  }

  /**
   * `extractClass(pathParts)`: "Class " and the digits of the first segment
   * that matches the class pattern; failing that the first segment, or
   * "Unknown" when that is missing or empty.  Never the empty string.
   */
  function ExtractClass(parts: seq<string>): (r: string)
    ensures r != ""
  {
    match FirstClassSegment(parts, 0)
    case Some(j) => "Class " + ClassCapture(parts[j])
    case None => if |parts| > 0 && parts[0] != "" then parts[0] else "Unknown"
  }

  /** The class label comes from the first matching segment, or from the fallback when none matches. */
  lemma ExtractClassIsFirstMatch(parts: seq<string>)
    ensures forall j :: 0 <= j < |parts| && FindClass(parts[j]).Some?
                          && (forall j' :: 0 <= j' < j ==> FindClass(parts[j']).None?)
                        ==> ExtractClass(parts) == "Class " + ClassCapture(parts[j])
    ensures (forall j :: 0 <= j < |parts| ==> FindClass(parts[j]).None?)
            ==> ExtractClass(parts) == (if |parts| > 0 && parts[0] != "" then parts[0] else "Unknown")
  {
    FirstClassSegmentIsFirst(parts, 0);
    var first := FirstClassSegment(parts, 0);
    forall j | 0 <= j < |parts| && FindClass(parts[j]).Some?
                 && (forall j' :: 0 <= j' < j ==> FindClass(parts[j']).None?)
      ensures ExtractClass(parts) == "Class " + ClassCapture(parts[j])
    {
      assert first.Some?;
      var k := first.value;
      assert FindClass(parts[k]).Some?;
      assert !(k < j) && !(j < k);
      assert ExtractClass(parts) == "Class " + ClassCapture(parts[k]);
    }
  }

  // ---------------------------------------------------------------------
  // The year pattern /\b(20\d{2})\b/
  // ---------------------------------------------------------------------

  /** `20dd` at offset `i` with a word boundary on both sides. */
  predicate YearAt(s: string, i: nat)
  {
    && i + 4 <= |s|
    && s[i] == '2' && s[i + 1] == '0' && IsDigit(s[i + 2]) && IsDigit(s[i + 3])
    && (i == 0 || !IsWordChar(s[i - 1]))
    && (i + 4 == |s| || !IsWordChar(s[i + 4]))
  }

  /** Tries the year pattern at offsets `i`, `i + 1`, ... and reports the first hit. */
  function YearFrom(s: string, i: nat): (r: Option<nat>)
    requires i <= |s|
    ensures r.Some? ==> i <= r.value && YearAt(s, r.value)
    decreases |s| - i
  {
    if YearAt(s, i) then Some(i)
    else if i == |s| then None
    else YearFrom(s, i + 1)
  }

  /** The scanner misses no year: nothing before the hit, and no hit exactly when there is no year. */
  lemma {:induction false} YearFromIsLeftmost(s: string, i: nat)
    requires i <= |s|
    ensures YearFrom(s, i).Some? ==> forall j :: i <= j < YearFrom(s, i).value ==> !YearAt(s, j)
    ensures YearFrom(s, i).None? <==> forall j :: i <= j ==> !YearAt(s, j)
    decreases |s| - i
  {
    if !YearAt(s, i) && i < |s| {
      YearFromIsLeftmost(s, i + 1);
    }
  }

  /** `part.match(/\b(20\d{2})\b/)`: offset of the leftmost year, if any. */
  function FindYear(part: string): (r: Option<nat>)
    ensures r.Some? ==> YearAt(part, r.value)
  {
    YearFrom(part, 0)
  }

  /** The year reported is the leftmost one, and there is none exactly when the segment has no year. */
  lemma FindYearIsLeftmost(part: string)
    ensures FindYear(part).Some? ==> forall j :: 0 <= j < FindYear(part).value ==> !YearAt(part, j)
    ensures FindYear(part).None? <==> forall j :: !YearAt(part, j)
  {
    YearFromIsLeftmost(part, 0);
  }

  /** Index of the first segment, at `i` or later, that contains a year. */
  function FirstYearSegment(parts: seq<string>, i: nat): (r: Option<nat>)
    requires i <= |parts|
    ensures r.Some? ==> i <= r.value < |parts| && FindYear(parts[r.value]).Some?
    decreases |parts| - i
  {
    if i == |parts| then None
    else if FindYear(parts[i]).Some? then Some(i)
    else FirstYearSegment(parts, i + 1)
  }

  /** No segment before the one reported has a year, and none is reported exactly when no segment has one. */
  lemma {:induction false} FirstYearSegmentIsFirst(parts: seq<string>, i: nat)
    requires i <= |parts|
    ensures FirstYearSegment(parts, i).Some? ==>
              forall j :: i <= j < FirstYearSegment(parts, i).value ==> FindYear(parts[j]).None?
    ensures FirstYearSegment(parts, i).None? <==> forall j :: i <= j < |parts| ==> FindYear(parts[j]).None?
    decreases |parts| - i
  {
    if i < |parts| && FindYear(parts[i]).None? {
      FirstYearSegmentIsFirst(parts, i + 1);
    }
  }

  /** A year label: four digits beginning with "20". */
  predicate IsYear(y: string)
  {
    |y| == 4 && y[0] == '2' && y[1] == '0' && IsDigit(y[2]) && IsDigit(y[3])
  }

  /**
   * `extractYear(pathParts)`: the leftmost `20dd` token of the first segment
   * that has one, or "Unknown" when no segment has one.
   */
  function ExtractYear(parts: seq<string>): (r: string)
    ensures r == "Unknown" || IsYear(r)
  {
    match FirstYearSegment(parts, 0)
    case Some(j) =>
      var i := FindYear(parts[j]).value;
      parts[j][i..i + 4]
    case None => "Unknown"
  }

  /** The year label is the leftmost token of the first segment with one; "Unknown" exactly when there is none. */
  lemma ExtractYearIsFirstToken(parts: seq<string>)
    ensures ExtractYear(parts) == "Unknown" <==> forall j :: 0 <= j < |parts| ==> FindYear(parts[j]).None?
    ensures forall j :: 0 <= j < |parts| && FindYear(parts[j]).Some?
                          && (forall j' :: 0 <= j' < j ==> FindYear(parts[j']).None?)
                        ==> var i := FindYear(parts[j]).value; ExtractYear(parts) == parts[j][i..i + 4]
  {
    FirstYearSegmentIsFirst(parts, 0);
  }

  // ---------------------------------------------------------------------
  // Examples
  // ---------------------------------------------------------------------

  /** The class pattern is not anchored: "subclass3" is labelled "Class 3". */
  lemma UnanchoredClass(s: string)
    requires s == "subclass3"
    ensures ExtractClass([s]) == "Class 3"
  {
    SubclassCapture(s);
    assert [s][0] == s;
  }

  lemma SubclassCapture(s: string)
    requires s == "subclass3"
    ensures FindClass(s).Some? && ClassCapture(s) == "3"
  {
    SubclassMatch(s);
    NoKeywordBefore(s);
    CaptureOfLeftmost(s, 3, 8, 9);
    assert s[8..9] == "3";
  }

  lemma SubclassMatch(s: string)
    requires s == "subclass3"
    ensures ClassMatchAt(s, 3, 8, 9)
  {
  }

  lemma NoKeywordBefore(s: string)
    requires s == "subclass3"
    ensures forall st :: 0 <= st < 3 ==> !KeywordAt(s, st)
  {
  }

  /** `_` is a word character, so "Class_2023" carries no year. */
  lemma UnderscoreHidesYear(s: string)
    requires s == "Class_2023"
    ensures ExtractYear([s]) == "Unknown"
  {
    forall j: nat ensures !YearAt(s, j) {
      if j == 6 {
        assert IsWordChar(s[5]);
      }
    }
    FindYearIsLeftmost(s);
  }
}
