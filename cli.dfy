/**
 * The pure string parsers of the command line: Python's int() on a decimal
 * string, str.split on one character, the "W:H" page ratio and the
 * margin-string expansion ("all", "v,h" or "top,right,bottom,left").
 */
module CliParsing {
  import opened Wrappers
  import opened Numeric
  import Paginator

  /** The ASCII characters int() treats as surrounding whitespace. */
  predicate IsSpace(c: char) {
    c == ' ' || c == '\t' || c == '\n' || c == '\r' || c == '\U{B}' || c == '\U{C}'
    || ('\U{1C}' <= c <= '\U{1F}')
  }

  predicate IsDigit(c: char) { '0' <= c <= '9' }

  /** The number of leading whitespace characters. */
  function LeadingSpaces(s: string): (k: nat)
    ensures k <= |s|
    ensures forall i :: 0 <= i < k ==> IsSpace(s[i])
    ensures k < |s| ==> !IsSpace(s[k])
  {
    if |s| > 0 && IsSpace(s[0]) then 1 + LeadingSpaces(s[1..]) else 0
  }

  /** The length of s without its trailing whitespace. */
  function TrailingStart(s: string): (k: nat)
    ensures k <= |s|
    ensures forall i :: k <= i < |s| ==> IsSpace(s[i])
    ensures k > 0 ==> !IsSpace(s[k - 1])
  {
    if |s| > 0 && IsSpace(s[|s| - 1]) then TrailingStart(s[..|s| - 1]) else |s|
  }

  /** s with surrounding whitespace removed: the result starts and ends with a non-space. */
  function Strip(s: string): (t: string)
    ensures |t| <= |s|
    ensures t != [] ==> !IsSpace(t[0]) && !IsSpace(t[|t| - 1])
    ensures (forall i :: 0 <= i < |s| ==> !IsSpace(s[i])) ==> t == s
  {
    var t := s[LeadingSpaces(s)..];
    t[..TrailingStart(t)]
  }

  /**
   * Decimal digits with single underscores allowed between two digits: the
   * body of a literal int() accepts (leading zeros are allowed in base 10).
   */
  predicate IsDigitGroups(u: string) {
    && |u| > 0
    && IsDigit(u[0]) && IsDigit(u[|u| - 1])
    && forall i :: 0 <= i < |u| ==> IsDigit(u[i]) || (u[i] == '_' && 0 < i < |u| - 1 && IsDigit(u[i - 1]) && IsDigit(u[i + 1]))
  }

  /** An optional sign followed by digit groups. */
  predicate IsIntLiteral(t: string) {
    IsDigitGroups(t) || (|t| > 0 && (t[0] == '+' || t[0] == '-') && IsDigitGroups(t[1..]))
  }

  /** The value of a run of digits and underscores, underscores ignored. */
  function DigitsValue(u: string): (v: nat)
  {
    if u == [] then 0
    else
      var last := u[|u| - 1];
      var rest := DigitsValue(u[..|u| - 1]);
      if IsDigit(last) then rest * 10 + (last as int - '0' as int) else rest
  }

  /**
   * int(s) on a string: None where Python raises ValueError. The stripped
   * string must be an optional sign followed by digit groups.
   */
  function ParseInt(s: string): (r: Option<int>)
    ensures r.Some? <==> IsIntLiteral(Strip(s))
  {
    ParseLiteral(Strip(s))
  }

  /** The value of a stripped string: an optional sign followed by digit groups. */
  function ParseLiteral(t: string): (r: Option<int>)
    ensures r.Some? <==> IsIntLiteral(t)
  {
    if |t| > 0 && (t[0] == '+' || t[0] == '-') then
      if IsDigitGroups(t[1..]) then
        var v: int := DigitsValue(t[1..]);
        Some(if t[0] == '-' then -v else v)
      else None
    else if IsDigitGroups(t) then Some(DigitsValue(t))
    else None
  }

  /** The decimal digit character for d. */
  function DigitChar(d: int): (c: char)
    requires 0 <= d < 10
    ensures IsDigit(c) && c as int - '0' as int == d
  {
    (d + '0' as int) as char
  }

  /** The decimal representation of n, most significant digit first, without leading zeros. */
  function ShowNat(n: nat): (s: string)
    ensures |s| > 0 && forall i :: 0 <= i < |s| ==> IsDigit(s[i])
    ensures |s| > 1 ==> s[0] != '0'
  {
    if n < 10 then [DigitChar(n)] else ShowNat(n / 10) + [DigitChar(n % 10)]
  }

  /** The decimal representation of n, with a minus sign when negative. */
  function ShowInt(n: int): string {
    if n < 0 then "-" + ShowNat(-n) else ShowNat(n)
  }

  lemma {:induction false} DigitsValueOfShowNat(n: nat)
    ensures DigitsValue(ShowNat(n)) == n
  {
    var s := ShowNat(n);
    if n >= 10 {
      assert s[..|s| - 1] == ShowNat(n / 10);
      DigitsValueOfShowNat(n / 10);
    } else {
      assert s[..|s| - 1] == [];
    }
  }

  /** A decimal representation is a literal with nothing to strip. */
  lemma ShowIntIsLiteral(n: int)
    ensures Strip(ShowInt(n)) == ShowInt(n)
    ensures ',' !in ShowInt(n) && ':' !in ShowInt(n)
    ensures var d := ShowNat(if n < 0 then -n else n);
      IsDigitGroups(d) && ShowInt(n) == (if n < 0 then "-" + d else d)
  {
    var d := ShowNat(if n < 0 then -n else n);
    var s := ShowInt(n);
    assert forall i :: 0 <= i < |s| ==> s[i] == '-' || IsDigit(s[i]) by {
      if n < 0 {
        forall i | 0 <= i < |s| ensures s[i] == '-' || IsDigit(s[i]) {
          if i > 0 { assert s[i] == d[i - 1]; }
        }
      }
    }
  }

  /** int() reads back every decimal representation. */
  lemma ParseShowInt(n: int)
    ensures ParseInt(ShowInt(n)) == Some(n)
  {
    var m := if n < 0 then -n else n;
    var d := ShowNat(m);
    DigitsValueOfShowNat(m);
    ShowIntIsLiteral(n);
    var s := ShowInt(n);
    if n < 0 {
      assert s[0] == '-' && s[1..] == d;
    } else {
      assert s == d;
      assert s[0] != '+' && s[0] != '-' by { assert IsDigit(d[0]); }
    }
  }

  /** A prefix of a suffix is a slice. */
  lemma SliceOfSuffix(s: string, lo: nat, k: nat)
    requires lo + k <= |s|
    ensures s[lo..][..k] == s[lo..lo + k]
  {
  }

  /** Whitespace at the end of a suffix is whitespace at the end of the whole. */
  lemma SpacesAfter(s: string, lo: nat, k: nat)
    requires lo + k <= |s|
    requires forall i :: k <= i < |s| - lo ==> IsSpace(s[lo..][i])
    ensures forall j :: lo + k <= j < |s| ==> IsSpace(s[j])
  {
    forall j | lo + k <= j < |s| ensures IsSpace(s[j]) {
      assert s[j] == s[lo..][j - lo];
    }
  }

  /**
   * Strip removes whitespace only, and all of it at both ends: lo characters
   * are skipped at the front and the next k are kept.
   */
  lemma StripTrimsEnds(s: string, lo: nat, k: nat)
    requires lo == LeadingSpaces(s) && k == TrailingStart(s[lo..])
    ensures lo + k <= |s| && Strip(s) == s[lo..lo + k]
    ensures forall j :: 0 <= j < lo ==> IsSpace(s[j])
    ensures forall j :: lo + k <= j < |s| ==> IsSpace(s[j])
  {
    SliceOfSuffix(s, lo, k);
    SpacesAfter(s, lo, k);
  }

  /** Whitespace before a string that starts with a non-space is skipped, and nothing more. */
  lemma {:induction false} LeadingSpacesSkipped(pre: string, s: string)
    requires forall i :: 0 <= i < |pre| ==> IsSpace(pre[i])
    requires s != [] && !IsSpace(s[0])
    ensures LeadingSpaces(pre + s) == |pre|
  {
    if pre != [] {
      assert (pre + s)[1..] == pre[1..] + s;
      LeadingSpacesSkipped(pre[1..], s);
    }
  }

  /** Whitespace after a string that ends with a non-space is trimmed, and nothing more. */
  lemma {:induction false} TrailingSpacesSkipped(s: string, post: string)
    requires forall i :: 0 <= i < |post| ==> IsSpace(post[i])
    requires s != [] && !IsSpace(s[|s| - 1])
    ensures TrailingStart(s + post) == |s|
  {
    if post != [] {
      assert (s + post)[..|s + post| - 1] == s + post[..|post| - 1];
      TrailingSpacesSkipped(s, post[..|post| - 1]);
    }
  }

  /** Strip of a string that neither starts nor ends with whitespace, padded with whitespace, is that string. */
  lemma StripAround(pre: string, s: string, post: string)
    requires forall i :: 0 <= i < |pre| ==> IsSpace(pre[i])
    requires forall i :: 0 <= i < |post| ==> IsSpace(post[i])
    requires s != [] && !IsSpace(s[0]) && !IsSpace(s[|s| - 1])
    ensures Strip(pre + s + post) == s
  {
    var x := pre + s + post;
    assert x == pre + (s + post);
    LeadingSpacesSkipped(pre, s + post);
    assert x[|pre|..] == s + post;
    TrailingSpacesSkipped(s, post);
    assert (s + post)[..|s|] == s;
  }

  /** int() ignores whitespace around a literal. */
  lemma ParseIntIgnoresSurroundingSpaces(pre: string, s: string, post: string)
    requires forall i :: 0 <= i < |pre| ==> IsSpace(pre[i])
    requires forall i :: 0 <= i < |post| ==> IsSpace(post[i])
    requires s != [] && !IsSpace(s[0]) && !IsSpace(s[|s| - 1])
    ensures ParseInt(pre + s + post) == ParseInt(s)
  {
    StripAround(pre, s, post);
    StripAround("", s, "");
    assert "" + s + "" == s;
  }

  /** A leading zero does not change the value of a digit run. */
  lemma {:induction false} DigitsValueLeadingZero(u: string)
    ensures DigitsValue("0" + u) == DigitsValue(u)
  {
    if u != [] {
      assert ("0" + u)[..|"0" + u| - 1] == "0" + u[..|u| - 1];
      DigitsValueLeadingZero(u[..|u| - 1]);
    } else {
      assert ("0" + u)[..0] == [];
    }
  }

  /** An underscore between digits does not change the value of a digit run. */
  lemma {:induction false} DigitsValueUnderscore(a: string, b: string)
    ensures DigitsValue(a + "_" + b) == DigitsValue(a + b)
  {
    if b == [] {
      assert (a + "_" + b)[..|a + "_" + b| - 1] == a;
      assert a + b == a;
    } else {
      assert (a + "_" + b)[..|a + "_" + b| - 1] == a + "_" + b[..|b| - 1];
      assert (a + b)[..|a + b| - 1] == a + b[..|b| - 1];
      DigitsValueUnderscore(a, b[..|b| - 1]);
    }
  }

  /** A string that neither starts nor ends with whitespace is its own Strip. */
  lemma StripOfTrimmed(s: string)
    requires s != [] && !IsSpace(s[0]) && !IsSpace(s[|s| - 1])
    ensures Strip(s) == s
  {
    assert s[0..] == s;
    assert s[..|s|] == s;
  }

  /** The value of digit groups, with or without a '+' sign. */
  lemma LiteralValue(u: string)
    requires IsDigitGroups(u)
    ensures ParseLiteral(u) == Some(DigitsValue(u))
    ensures ParseLiteral("+" + u) == Some(DigitsValue(u))
  {
    assert ("+" + u)[1..] == u;
  }

  /** A '+' sign does not change the value of a literal. */
  lemma ParseIntPlusSign(u: string)
    requires IsDigitGroups(u)
    ensures ParseInt("+" + u) == ParseInt(u)
  {
    var s := "+" + u;
    assert s[|s| - 1] == u[|u| - 1];
    StripOfTrimmed(s);
    StripOfTrimmed(u);
    LiteralValue(u);
  }

  /** "w:h" with one colon: the parts around each occurrence of c. */
  function Split(s: string, c: char): (parts: seq<string>)
    ensures |parts| >= 1
    ensures forall k :: 0 <= k < |parts| ==> c !in parts[k]
    ensures Join(parts, c) == s
  {
    if c !in s then [s]
    else
      var i := IndexOf(s, c);
      [s[..i]] + Split(s[i + 1..], c)
  }

  /** The first position of c in s. */
  function IndexOf(s: string, c: char): (i: nat)
    requires c in s
    ensures i < |s| && s[i] == c && c !in s[..i]
  {
    if s[0] == c then 0 else 1 + IndexOf(s[1..], c)
  }

  /** The parts concatenated with c between each two: the inverse of Split. */
  function Join(parts: seq<string>, c: char): string
    requires |parts| >= 1
  {
    if |parts| == 1 then parts[0] else parts[0] + [c] + Join(parts[1..], c)
  }

  /** Split recovers the parts of any join whose parts do not contain the separator. */
  lemma {:induction false} SplitJoin(parts: seq<string>, c: char)
    requires |parts| >= 1
    requires forall k :: 0 <= k < |parts| ==> c !in parts[k]
    ensures Split(Join(parts, c), c) == parts
  {
    if |parts| > 1 {
      var s := Join(parts, c);
      var rest := Join(parts[1..], c);
      assert s == parts[0] + [c] + rest;
      assert s[|parts[0]|] == c;
      assert c in s;
      var i := IndexOf(s, c);
      assert s[..|parts[0]|] == parts[0];
      assert i == |parts[0]|;
      assert s[i + 1..] == rest;
      SplitJoin(parts[1..], c);
    } else {
      assert c !in Join(parts, c);
    }
  }

  /**
   * _parse_ratio: "W:H" with exactly one colon and two positive integers,
   * giving the page ratio height / width; None otherwise.
   */
  function ParseRatio(s: string): (r: Option<Ratio>)
    ensures r.Some? ==> r.value.Valid()
    ensures r.Some? ==>
      && |Split(s, ':')| == 2
      && ParseInt(Split(s, ':')[0]) == Some(r.value.w)
      && ParseInt(Split(s, ':')[1]) == Some(r.value.h)
    ensures r.Some? <==>
      && |Split(s, ':')| == 2
      && ParseInt(Split(s, ':')[0]).Some? && ParseInt(Split(s, ':')[0]).value > 0
      && ParseInt(Split(s, ':')[1]).Some? && ParseInt(Split(s, ':')[1]).value > 0
    ensures |Split(s, ':')| != 2 ==> r.None?
  {
    var parts := Split(s, ':');
    if |parts| != 2 then None
    else
      match (ParseInt(parts[0]), ParseInt(parts[1]))
      case (Some(w), Some(h)) => if w <= 0 || h <= 0 then None else Some(Ratio(w, h))
      case _ => None
  }

  /** Every pair of positive integers written "W:H" parses back to itself. */
  lemma ParseRatioRoundTrip(w: int, h: int)
    requires w > 0 && h > 0
    ensures ParseRatio(ShowInt(w) + ":" + ShowInt(h)) == Some(Ratio(w, h))
  {
    var a, b := ShowInt(w), ShowInt(h);
    ShowIntIsLiteral(w);
    ShowIntIsLiteral(h);
    assert Join([a, b], ':') == a + ":" + b;
    SplitJoin([a, b], ':');
    ParseShowInt(w);
    ParseShowInt(h);
  }

  /** A ratio whose width or height is not positive is refused. */
  lemma ParseRatioRefusesNonPositive(w: int, h: int)
    requires w <= 0 || h <= 0
    ensures ParseRatio(ShowInt(w) + ":" + ShowInt(h)) == None
  {
    var a, b := ShowInt(w), ShowInt(h);
    ShowIntIsLiteral(w);
    ShowIntIsLiteral(h);
    assert Join([a, b], ':') == a + ":" + b;
    SplitJoin([a, b], ':');
    ParseShowInt(w);
    ParseShowInt(h);
  }

  /** Why a margin string was refused: a part count other than 1, 2 or 4, or a part int() rejects. */
  datatype MarginError = WrongCount(count: int) | NotAnInteger(part: string)

  /** The parsed parts, or the first part that is not an integer. */
  function ParseAll(parts: seq<string>): (r: Result<seq<int>, MarginError>)
    ensures r.Success? ==> |r.value| == |parts| && forall k :: 0 <= k < |parts| ==> ParseInt(parts[k]) == Some(r.value[k])
    ensures r.Failure? ==> r.error.NotAnInteger? && r.error.part in parts && ParseInt(r.error.part).None?
    ensures r.Failure? <==> exists k :: 0 <= k < |parts| && ParseInt(parts[k]).None?
  {
    if parts == [] then Success([])
    else
      match ParseInt(parts[0])
      case None => Failure(NotAnInteger(parts[0]))
      case Some(v) =>
        match ParseAll(parts[1..])
        case Failure(e) => Failure(e)
        case Success(vs) => Success([v] + vs)
  }

  /**
   * The --margins expansion: an absent or empty string means no margins; one
   * value applies to all four sides, two are (vertical, horizontal), four are
   * (top, right, bottom, left); any other count is refused, as is a part that
   * is not an integer.
   */
  function ParseMargins(arg: Option<string>): (r: Result<Option<Paginator.Margins>, MarginError>)
    ensures arg.None? || arg.value == "" ==> r == Success(None)
    ensures r.Success? && r.value.Some? ==> arg.Some? && |Split(arg.value, ',')| in {1, 2, 4}
    ensures arg.Some? && arg.value != "" && |Split(arg.value, ',')| !in {1, 2, 4} ==>
      r == Failure(WrongCount(|Split(arg.value, ',')|))
    ensures r.Failure? && r.error.NotAnInteger? ==> arg.Some? && r.error.part in Split(arg.value, ',')
    ensures arg.Some? && arg.value != "" && |Split(arg.value, ',')| in {1, 2, 4} ==>
      var all := ParseAll(Split(arg.value, ','));
      && (r.Failure? <==> all.Failure?)
      && (r.Failure? ==> r.error == all.error)
      && (all.Success? && |all.value| == 1 ==>
            r == Success(Some(Paginator.Margins(all.value[0], all.value[0], all.value[0], all.value[0]))))
      && (all.Success? && |all.value| == 2 ==>
            r == Success(Some(Paginator.Margins(all.value[0], all.value[1], all.value[0], all.value[1]))))
      && (all.Success? && |all.value| == 4 ==>
            r == Success(Some(Paginator.Margins(all.value[0], all.value[1], all.value[2], all.value[3]))))
  {
    if arg.None? || arg.value == "" then Success(None)
    else
      var parts := Split(arg.value, ',');
      if |parts| != 1 && |parts| != 2 && |parts| != 4 then Failure(WrongCount(|parts|))
      else
        match ParseAll(parts)
        case Failure(e) => Failure(e)
        case Success(vs) =>
          if |vs| == 1 then Success(Some(Paginator.Margins(vs[0], vs[0], vs[0], vs[0])))
          else if |vs| == 2 then Success(Some(Paginator.Margins(vs[0], vs[1], vs[0], vs[1])))
          else Success(Some(Paginator.Margins(vs[0], vs[1], vs[2], vs[3])))
  }

  /** The four sides written "top,right,bottom,left". */
  function ShowMargins(m: Paginator.Margins): string {
    ShowInt(m.top) + "," + ShowInt(m.right) + "," + ShowInt(m.bottom) + "," + ShowInt(m.left)
  }

  /** The parts of values written out one by one parse back to the values. */
  lemma {:induction false} ParseAllShown(vs: seq<int>)
    ensures ParseAll(ShowEach(vs)) == Success(vs)
  {
    var parts := ShowEach(vs);
    if vs != [] {
      ParseShowInt(vs[0]);
      assert parts[0] == ShowInt(vs[0]);
      assert parts[1..] == ShowEach(vs[1..]);
      ParseAllShown(vs[1..]);
      assert ParseAll(parts[1..]) == Success(vs[1..]);
      assert [vs[0]] + vs[1..] == vs;
    }
  }

  /** Each value written out. */
  function ShowEach(vs: seq<int>): (parts: seq<string>)
    ensures |parts| == |vs|
    ensures forall k :: 0 <= k < |vs| ==> parts[k] == ShowInt(vs[k])
  {
    if vs == [] then [] else [ShowInt(vs[0])] + ShowEach(vs[1..])
  }

  /** Values written out and joined with commas split back into their parts. */
  lemma SplitShown(vs: seq<int>)
    requires |vs| >= 1
    ensures Split(Join(ShowEach(vs), ','), ',') == ShowEach(vs)
  {
    var parts := ShowEach(vs);
    forall k | 0 <= k < |parts|
      ensures ',' !in parts[k]
    {
      ShowIntIsLiteral(vs[k]);
    }
    SplitJoin(parts, ',');
  }

  /** Four strings joined with commas. */
  lemma JoinFour(a: string, b: string, c: string, d: string)
    ensures Join([a, b, c, d], ',') == a + "," + b + "," + c + "," + d
  {
    var parts := [a, b, c, d];
    assert parts[1..] == [b, c, d] && parts[2..] == [c, d] && parts[3..] == [d];
    assert Join([c, d], ',') == c + "," + d;
    assert Join([b, c, d], ',') == b + "," + (c + "," + d);
    assert Join(parts, ',') == a + "," + (b + "," + (c + "," + d));
  }

  /** The four sides joined with commas are ShowMargins. */
  lemma JoinShownSides(m: Paginator.Margins)
    ensures Join(ShowEach([m.top, m.right, m.bottom, m.left]), ',') == ShowMargins(m)
  {
    var parts := ShowEach([m.top, m.right, m.bottom, m.left]);
    assert parts == [ShowInt(m.top), ShowInt(m.right), ShowInt(m.bottom), ShowInt(m.left)];
    JoinFour(ShowInt(m.top), ShowInt(m.right), ShowInt(m.bottom), ShowInt(m.left));
  }

  /** A non-empty argument of four integer parts gives the four sides in order. */
  lemma ParseMarginsFour(s: string, vs: seq<int>)
    requires s != "" && |Split(s, ',')| == 4 && ParseAll(Split(s, ',')) == Success(vs)
    ensures ParseMargins(Some(s)) == Success(Some(Paginator.Margins(vs[0], vs[1], vs[2], vs[3])))
  {
  }

  /** Four values written out parse back to the same margins. */
  lemma ParseMarginsRoundTrip(m: Paginator.Margins)
    ensures ParseMargins(Some(ShowMargins(m))) == Success(Some(m))
  {
    var vs := [m.top, m.right, m.bottom, m.left];
    var s := ShowMargins(m);
    JoinShownSides(m);
    SplitShown(vs);
    ParseAllShown(vs);
    assert s[|ShowInt(m.top)|] == ',';
    ParseMarginsFour(s, vs);
  }

  /** One value int() reads applies to all four sides. */
  lemma ParseMarginsSingle(s: string, v: int)
    requires ',' !in s && ParseInt(s) == Some(v)
    ensures ParseMargins(Some(s)) == Success(Some(Paginator.Margins(v, v, v, v)))
  {
    assert Split(s, ',') == [s];
  }

  /** "v,h": two values int() reads are the vertical (top and bottom) and horizontal (right and left) margins. */
  lemma ParseMarginsPair(a: string, b: string, v: int, h: int)
    requires ',' !in a && ',' !in b && ParseInt(a) == Some(v) && ParseInt(b) == Some(h)
    ensures ParseMargins(Some(a + "," + b)) == Success(Some(Paginator.Margins(v, h, v, h)))
  {
    assert Join([a, b], ',') == a + "," + b;
    SplitJoin([a, b], ',');
  }

}
