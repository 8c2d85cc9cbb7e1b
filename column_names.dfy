/**
 * The column-list parser inside TableStatsMeta.update: strip one pair of
 * brackets, split on ',', trim every piece with Java's String.trim, and drop
 * the pieces that are left empty.
 */
module ColumnNames {
  import opened Wrappers

  /** String.trim removes every leading and trailing char at or below U+0020. */
  predicate IsBlank(c: char) {
    c <= ' '
  }

  /** Neither end of `s` is a char that String.trim would remove. */
  predicate IsTrimmed(s: string) {
    s == [] || (!IsBlank(s[0]) && !IsBlank(s[|s| - 1]))
  }

  /** No string of `parts` contains `c`. */
  ghost predicate FreeOf(parts: seq<string>, c: char) {
    forall i :: 0 <= i < |parts| ==> c !in parts[i]
  }

  /** The index of the first non-blank char at or after `i`, or |s|. */
  function LeadingEnd(s: string, i: nat): (k: nat)
    requires i <= |s|
    ensures i <= k <= |s|
    ensures forall j :: i <= j < k ==> IsBlank(s[j])
    ensures k < |s| ==> !IsBlank(s[k])
    decreases |s| - i
  {
    if i < |s| && IsBlank(s[i]) then LeadingEnd(s, i + 1) else i
  }

  /** Walking back from `e` over blank chars, the index where the walk stops; never below `lo`. */
  function TrailingStart(s: string, lo: nat, e: nat): (f: nat)
    requires lo <= e <= |s|
    ensures lo <= f <= e
    ensures forall j :: f <= j < e ==> IsBlank(s[j])
    ensures f > lo ==> !IsBlank(s[f - 1])
    decreases e
  {
    if e > lo && IsBlank(s[e - 1]) then TrailingStart(s, lo, e - 1) else e
  }

  /**
   * Java's String.trim: the result is the slice of `s` left after removing a
   * blank prefix and a blank suffix, and neither of its ends is blank.
   */
  function Trim(s: string): (r: string)
    ensures IsTrimmed(r)
    ensures var k := LeadingEnd(s, 0);
            && k + |r| <= |s| && r == s[k..k + |r|]
            && (forall j :: 0 <= j < k ==> IsBlank(s[j]))
            && (forall j :: k + |r| <= j < |s| ==> IsBlank(s[j]))
  {
    TrimBounds(s)
  }

  /** The slice Trim returns, before its properties are established. */
  function TrimBounds(s: string): string {
    var k := LeadingEnd(s, 0);
    s[k..TrailingStart(s, k, |s|)]
  }

  /** The inverse of Split: the pieces glued back together with `sep`. */
  function Join(parts: seq<string>, sep: char): string
    requires |parts| >= 1
  {
    if |parts| == 1 then parts[0] else parts[0] + [sep] + Join(parts[1..], sep)
  }

  /**
   * String.split on a one-char separator, keeping every piece. Java's split
   * also drops trailing empty pieces; Parse drops every empty piece after
   * trimming, so the difference never shows in its result.
   */
  function Split(s: string, sep: char): (parts: seq<string>)
    ensures |parts| >= 1
    ensures FreeOf(parts, sep)
    ensures Join(parts, sep) == s
    decreases |s|
  {
    if |s| == 0 then [""]
    else
      var rest := Split(s[1..], sep);
      if s[0] == sep then
        assert ([""] + rest)[1..] == rest;
        [""] + rest
      else
        var parts := [[s[0]] + rest[0]] + rest[1..];
        assert parts[1..] == rest[1..];
        assert |rest| > 1 ==> rest[0] + [sep] + Join(rest[1..], sep) == Join(rest, sep);
        parts
  }

  /** Every piece trimmed; the pieces that are left empty are dropped, the others keep their order. */
  function TrimNonEmpty(parts: seq<string>): (names: seq<string>)
    ensures |names| <= |parts|
    ensures forall i :: 0 <= i < |names| ==> names[i] != [] && IsTrimmed(names[i])
  {
    if |parts| == 0 then []
    else
      var t := Trim(parts[0]);
      var rest := TrimNonEmpty(parts[1..]);
      if t == [] then rest else [t] + rest
  }

  /** Trimming and dropping pieces brings in no char the pieces did not have. */
  lemma {:induction false} TrimNonEmptyFreeOf(parts: seq<string>, c: char)
    requires FreeOf(parts, c)
    ensures FreeOf(TrimNonEmpty(parts), c)
  {
    if |parts| > 0 {
      var t := Trim(parts[0]);
      assert c !in parts[0];
      assert t == parts[0][LeadingEnd(parts[0], 0)..LeadingEnd(parts[0], 0) + |t|];
      assert FreeOf(parts[1..], c) by {
        forall i | 0 <= i < |parts[1..]| ensures c !in parts[1..][i] {
          assert parts[1..][i] == parts[i + 1];
        }
      }
      TrimNonEmptyFreeOf(parts[1..], c);
    }
  }

  /** `n` is what trim makes of one of the pieces. */
  ghost predicate TrimOfPiece(parts: seq<string>, n: string) {
    exists i :: 0 <= i < |parts| && Trim(parts[i]) == n
  }

  lemma TrimOfPieceCons(parts: seq<string>, n: string)
    requires |parts| > 0
    ensures TrimOfPiece(parts, n) <==> Trim(parts[0]) == n || TrimOfPiece(parts[1..], n)
  {
    if TrimOfPiece(parts, n) {
      var i :| 0 <= i < |parts| && Trim(parts[i]) == n;
      if i > 0 {
        assert parts[1..][i - 1] == parts[i];
      }
    }
    if TrimOfPiece(parts[1..], n) {
      var i :| 0 <= i < |parts[1..]| && Trim(parts[1..][i]) == n;
      assert parts[i + 1] == parts[1..][i];
    }
  }

  /** `n` is kept exactly when it is the non-empty trim of one of the pieces. */
  lemma {:induction false} TrimNonEmptyMember(parts: seq<string>, n: string)
    ensures n in TrimNonEmpty(parts) <==> n != [] && TrimOfPiece(parts, n)
  {
    if |parts| > 0 {
      TrimNonEmptyMember(parts[1..], n);
      TrimOfPieceCons(parts, n);
    }
  }

  /** The names are exactly the non-empty trims of the pieces. */
  lemma TrimNonEmptyMembers(parts: seq<string>)
    ensures forall n :: n in TrimNonEmpty(parts) <==> n != [] && TrimOfPiece(parts, n)
  {
    forall n ensures n in TrimNonEmpty(parts) <==> n != [] && TrimOfPiece(parts, n) {
      TrimNonEmptyMember(parts, n);
    }
  }

  /** The string starts with '[' and ends with ']'. */
  predicate Bracketed(s: string) {
    |s| >= 1 && s[0] == '[' && s[|s| - 1] == ']'
  }

  /**
   * Removes one leading '[' and one trailing ']' when both are there; any
   * other string is returned unchanged. The two tests cannot both pass on a
   * one-char string, so the substring taken is always well defined.
   */
  function StripBrackets(s: string): (r: string)
    ensures Bracketed(s) ==> |s| >= 2 && s == "[" + r + "]"
    ensures !Bracketed(s) ==> r == s
  {
    if Bracketed(s) then s[1..|s| - 1] else s
  }

  /** Names the parser returns unchanged: non-empty, trimmed, without a comma. */
  ghost predicate WellFormedNames(names: seq<string>) {
    forall i :: 0 <= i < |names| ==> names[i] != [] && IsTrimmed(names[i]) && ',' !in names[i]
  }

  /** The names update reads from the job's column-list text. */
  function Parse(colName: string): (names: seq<string>)
    ensures WellFormedNames(names)
  {
    var parts := Split(StripBrackets(colName), ',');
    TrimNonEmptyFreeOf(parts, ',');
    TrimNonEmpty(parts)
  }

  /**
   * A name is parsed exactly when it is the non-empty trim of one of the
   * comma-separated pieces of the bracket-stripped text.
   */
  lemma ParseMembers(colName: string)
    ensures forall n :: n in Parse(colName) <==> n != [] && TrimOfPiece(Split(StripBrackets(colName), ','), n)
  {
    TrimNonEmptyMembers(Split(StripBrackets(colName), ','));
  }

  /** A list of names in the "[col1, col2]" form the comment on the parser describes. */
  function Render(names: seq<string>): string {
    "[" + JoinNames(names) + "]"
  }

  function JoinNames(names: seq<string>): string {
    if |names| == 0 then ""
    else if |names| == 1 then names[0]
    else names[0] + ", " + JoinNames(names[1..])
  }

  lemma {:induction false} SplitPrefix(a: string, b: string, sep: char)
    requires sep !in a
    ensures Split(a + b, sep) == [a + Split(b, sep)[0]] + Split(b, sep)[1..]
    decreases |a|
  {
    if |a| > 0 {
      assert (a + b)[1..] == a[1..] + b;
      SplitPrefix(a[1..], b, sep);
      assert [a[0]] + (a[1..] + Split(b, sep)[0]) == a + Split(b, sep)[0];
    } else {
      var p := Split(b, sep);
      assert a + b == b;
      assert a + p[0] == p[0];
      assert [p[0]] + p[1..] == p;
    }
  }

  /** Splitting at a separator after a separator-free prefix. */
  lemma SplitAtSeparator(a: string, t: string, sep: char)
    requires sep !in a
    ensures Split(a + [sep] + t, sep) == [a] + Split(t, sep)
  {
    assert a + [sep] + t == a + ([sep] + t);
    SplitPrefix(a, [sep] + t, sep);
    assert ([sep] + t)[1..] == t;
    assert Split([sep] + t, sep) == [""] + Split(t, sep);
    assert a + "" == a;
  }

  /** Split and Join are inverse on separator-free pieces. */
  lemma {:induction false} SplitJoin(parts: seq<string>, sep: char)
    requires |parts| >= 1 && FreeOf(parts, sep)
    ensures Split(Join(parts, sep), sep) == parts
  {
    if |parts| == 1 {
      SplitPrefix(parts[0], "", sep);
      assert parts[0] + "" == parts[0];
    } else {
      assert FreeOf(parts[1..], sep) by {
        forall i | 0 <= i < |parts[1..]| ensures sep !in parts[1..][i] {
          assert parts[1..][i] == parts[i + 1];
        }
      }
      assert sep !in parts[0];
      SplitJoin(parts[1..], sep);
      SplitAtSeparator(parts[0], Join(parts[1..], sep), sep);
    }
  }

  lemma TrimOfTrimmed(s: string)
    requires IsTrimmed(s)
    ensures Trim(s) == s
  {
  }

  lemma {:induction false} LeadingEndShift(c: char, s: string, i: nat)
    requires i <= |s|
    ensures LeadingEnd([c] + s, i + 1) == LeadingEnd(s, i) + 1
    decreases |s| - i
  {
    if i < |s| {
      assert ([c] + s)[i + 1] == s[i];
      if IsBlank(s[i]) {
        LeadingEndShift(c, s, i + 1);
      }
    }
  }

  lemma {:induction false} TrailingStartShift(c: char, s: string, lo: nat, e: nat)
    requires lo <= e <= |s|
    ensures TrailingStart([c] + s, lo + 1, e + 1) == TrailingStart(s, lo, e) + 1
    decreases e
  {
    if e > lo {
      assert ([c] + s)[e] == s[e - 1];
      if IsBlank(s[e - 1]) {
        TrailingStartShift(c, s, lo, e - 1);
      }
    }
  }

  lemma TrimBoundsBlankPrefix(c: char, s: string)
    requires IsBlank(c)
    ensures TrimBounds([c] + s) == TrimBounds(s)
  {
    var t := [c] + s;
    var k := LeadingEnd(s, 0);
    var f := TrailingStart(s, k, |s|);
    LeadingEndShift(c, s, 0);
    TrailingStartShift(c, s, k, |s|);
    assert LeadingEnd(t, 0) == k + 1;
    SliceShift(c, s, k, f);
  }

  lemma SliceShift(c: char, s: string, a: nat, b: nat)
    requires a <= b <= |s|
    ensures ([c] + s)[a + 1..b + 1] == s[a..b]
  {
    assert ([c] + s)[1..] == s;
  }

  /** A blank first char is one of the chars trim removes. */
  lemma TrimBlankPrefix(c: char, s: string)
    requires IsBlank(c)
    ensures Trim([c] + s) == Trim(s)
  {
    TrimBoundsBlankPrefix(c, s);
  }

  lemma TrimNonEmptyLeadingSpace(p: string, ps: seq<string>)
    ensures TrimNonEmpty([" " + p] + ps) == TrimNonEmpty([p] + ps)
  {
    TrimBlankPrefix(' ', p);
    assert ([" " + p] + ps)[1..] == ps;
    assert ([p] + ps)[1..] == ps;
  }

  /** A trimmed, non-empty first piece survives TrimNonEmpty as it is. */
  lemma TrimNonEmptyKeeps(n: string, ps: seq<string>)
    requires n != [] && IsTrimmed(n)
    ensures TrimNonEmpty([n] + ps) == [n] + TrimNonEmpty(ps)
  {
    TrimOfTrimmed(n);
    assert ([n] + ps)[1..] == ps;
  }

  /** Splitting "n, j" on ',' gives n, then the pieces of j with a space before the first. */
  lemma SplitNameList(n: string, j: string)
    requires ',' !in n
    ensures var ps := Split(j, ',');
            Split(n + ", " + j, ',') == [n] + ([" " + ps[0]] + ps[1..])
  {
    assert n + ", " + j == n + [','] + (" " + j);
    SplitAtSeparator(n, " " + j, ',');
    SplitPrefix(" ", j, ',');
  }

  lemma {:induction false} ParseJoinNames(names: seq<string>)
    requires WellFormedNames(names)
    ensures TrimNonEmpty(Split(JoinNames(names), ',')) == names
    decreases |names|
  {
    if |names| == 0 {
      assert Trim("") == "";
    } else if |names| == 1 {
      SplitPrefix(names[0], "", ',');
      assert names[0] + "" == names[0];
      TrimNonEmptyKeeps(names[0], []);
    } else {
      var rest := names[1..];
      assert WellFormedNames(rest) by {
        forall i | 0 <= i < |rest| ensures rest[i] != [] && IsTrimmed(rest[i]) && ',' !in rest[i] {
          assert rest[i] == names[i + 1];
        }
      }
      ParseJoinNames(rest);
      var j := JoinNames(rest);
      var ps := Split(j, ',');
      SplitNameList(names[0], j);
      TrimNonEmptyKeeps(names[0], [" " + ps[0]] + ps[1..]);
      TrimNonEmptyLeadingSpace(ps[0], ps[1..]);
      assert [ps[0]] + ps[1..] == ps;
      assert names == [names[0]] + rest;
    }
  }

  /** Parsing the bracketed rendering of well-formed names gives the names back. */
  lemma ParseRender(names: seq<string>)
    requires WellFormedNames(names)
    ensures Parse(Render(names)) == names
  {
    var s := Render(names);
    assert s[1..|s| - 1] == JoinNames(names);
    ParseJoinNames(names);
  }

  /** The unbracketed spelling of the same pair of columns. */
  lemma ParsePlainExample()
    ensures Parse("a,b") == ["a", "b"]
  {
  }

  /** The bracketed spelling of a pair of columns. */
  lemma ParseBracketedExample()
    ensures Parse("[a, b]") == ["a", "b"]
  {
    var names := ["a", "b"];
    assert JoinNames(names[1..]) == "b";
    assert JoinNames(names) == "a, b";
    assert Render(names) == "[a, b]";
    assert WellFormedNames(names);
    ParseRender(names);
  }

  /** The plain and the bracketed spelling of a column list name the same columns. */
  lemma ParseSpellingsAgree()
    ensures Parse("a,b") == Parse("[a, b]")
  {
    ParsePlainExample();
    ParseBracketedExample();
  }
}
