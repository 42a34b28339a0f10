/** The server-side field checks: three anchored regular expressions, each
    stated as a length and character-class predicate. */
module FieldValidation {

  /** The characters JavaScript's `\s` matches. */
  predicate IsWhitespace(c: char)
  {
    c in {' ', '\t', '\n', '\r', '\U{b}', '\U{c}', '\U{a0}', '\U{1680}', '\U{2028}', '\U{2029}',
          '\U{202f}', '\U{205f}', '\U{3000}', '\U{feff}'}
    || ('\U{2000}' <= c <= '\U{200a}')
  }

  /** The characters JavaScript's `.` does not match. */
  predicate IsLineTerminator(c: char)
  {
    c == '\n' || c == '\r' || c == '\U{2028}' || c == '\U{2029}'
  }

  predicate IsLower(c: char) { 'a' <= c <= 'z' }
  predicate IsUpper(c: char) { 'A' <= c <= 'Z' }
  predicate IsDigit(c: char) { '0' <= c <= '9' }

  predicate NoWhitespace(s: string)
  {
    forall i :: 0 <= i < |s| ==> !IsWhitespace(s[i])
  }

  // ---------------------------------------------------------------------
  // The `trim` setter of the user schema

  /** Every character of `s` from position `lo` up to `hi` is whitespace. */
  ghost predicate Blank(s: string, lo: int, hi: int)
  {
    forall k :: 0 <= lo <= k < hi <= |s| ==> IsWhitespace(s[k])
  }

  /** `s` has only whitespace before position `i` and from position `j` on. */
  ghost predicate BlankAround(s: string, i: int, j: int)
  {
    0 <= i <= j <= |s| && Blank(s, 0, i) && Blank(s, j, |s|)
  }

  /** The string without its leading whitespace. */
  function TrimStart(s: string): (r: string)
    ensures |r| <= |s| && r == s[|s| - |r|..]
    ensures Blank(s, 0, |s| - |r|)
    ensures r == [] || !IsWhitespace(r[0])
  {
    if s != [] && IsWhitespace(s[0]) then
      var r := TrimStart(s[1..]);
      BlankCons(s, |s| - |r|);
      r
    else s
  }

  /** A whitespace character followed by a blank prefix is a blank prefix. */
  lemma BlankCons(s: string, n: int)
    requires s != [] && IsWhitespace(s[0]) && 1 <= n <= |s| && Blank(s[1..], 0, n - 1)
    ensures Blank(s, 0, n)
  {
    forall k | 1 <= k < n ensures IsWhitespace(s[k]) {
      assert s[k] == s[1..][k - 1];
    }
  }

  /** The string without its trailing whitespace. */
  function TrimEnd(s: string): (r: string)
    ensures |r| <= |s| && r == s[..|r|]
    ensures Blank(s, |r|, |s|)
    ensures r == [] || !IsWhitespace(r[|r| - 1])
  {
    if s != [] && IsWhitespace(s[|s| - 1]) then
      var r := TrimEnd(s[..|s| - 1]);
      BlankSnoc(s, |r|);
      r
    else s
  }

  /** A blank suffix followed by a whitespace character is a blank suffix. */
  lemma BlankSnoc(s: string, n: int)
    requires s != [] && IsWhitespace(s[|s| - 1]) && 0 <= n <= |s| - 1 && Blank(s[..|s| - 1], n, |s| - 1)
    ensures Blank(s, n, |s|)
  {
    forall k | n <= k < |s| - 1 ensures IsWhitespace(s[k]) {
      assert s[k] == s[..|s| - 1][k];
    }
  }

  /** `String.prototype.trim`, which Mongoose applies to a `trim: true`
      field both in query filters and in updates: whitespace (the same set
      as `\s`) is dropped at both ends, and a string without whitespace is
      left as it is. */
  function Trim(s: string): (r: string)
    ensures |r| <= |s|
    ensures r == [] || (!IsWhitespace(r[0]) && !IsWhitespace(r[|r| - 1]))
    ensures NoWhitespace(s) ==> r == s
  {
    TrimmedEnds(s);
    UntrimmedWithoutWhitespace(s);
    TrimEnd(TrimStart(s))
  }

  /** Neither end of a string without whitespace is trimmed. */
  lemma UntrimmedWithoutWhitespace(s: string)
    ensures NoWhitespace(s) ==> TrimEnd(TrimStart(s)) == s
  {
    if NoWhitespace(s) && s != [] {
      assert !IsWhitespace(s[0]) && !IsWhitespace(s[|s| - 1]);
    }
  }

  /** The trimmed string neither starts nor ends with whitespace. */
  lemma TrimmedEnds(s: string)
    ensures var r := TrimEnd(TrimStart(s));
            r == [] || (!IsWhitespace(r[0]) && !IsWhitespace(r[|r| - 1]))
  {
    var t := TrimStart(s);
    var r := TrimEnd(t);
    assert r != [] ==> r[0] == t[0];
  }

  /** The trimmed string is the factor of `s` between its leading and its
      trailing whitespace. */
  lemma TrimmedFactor(s: string)
    ensures exists i, j :: BlankAround(s, i, j) && Trim(s) == s[i..j]
  {
    var t := TrimStart(s);
    var r := TrimEnd(t);
    FactorSlice(s, t, r);
    TrailingBlank(s, t, r);
    var i, j := |s| - |t|, |s| - |t| + |r|;
    assert BlankAround(s, i, j) && r == s[i..j];
  }

  /** A prefix `r` of a suffix `t` of `s` is a slice of `s`. */
  lemma FactorSlice(s: string, t: string, r: string)
    requires |t| <= |s| && t == s[|s| - |t|..]
    requires |r| <= |t| && r == t[..|r|]
    ensures r == s[|s| - |t|..|s| - |t| + |r|]
  {
  }

  /** What `TrimEnd` drops from the tail of a suffix `t` of `s` is
      whitespace of `s`. */
  lemma TrailingBlank(s: string, t: string, r: string)
    requires |t| <= |s| && t == s[|s| - |t|..]
    requires |r| <= |t| && Blank(t, |r|, |t|)
    ensures Blank(s, |s| - |t| + |r|, |s|)
  {
    forall k | |s| - |t| + |r| <= k < |s| ensures IsWhitespace(s[k]) {
      assert s[k] == t[k - (|s| - |t|)];
    }
  }

  /** Trimming twice is trimming once. */
  lemma TrimIdempotent(s: string)
    ensures Trim(Trim(s)) == Trim(s)
  {
  }

  // ---------------------------------------------------------------------
  // isValidEmail

  /** The address a@b.c. */
  function Joined(a: string, b: string, c: string): string
  {
    a + ['@'] + b + ['.'] + c
  }

  /** What `/^\S+@\S+\.\S+$/` accepts: a whitespace-free string of the
      form a@b.c with a, b and c non-empty. */
  ghost predicate EmailShape(s: string)
  {
    NoWhitespace(s) && IsJoined(s)
  }

  ghost predicate IsJoined(s: string)
  {
    exists a: string, b: string, c: string :: |a| > 0 && |b| > 0 && |c| > 0 && s == Joined(a, b, c)
  }

  /** Some `@` after the first character, followed at least two places later
      by a `.` that is not the last character. */
  ghost predicate SplitPoints(s: string)
  {
    exists i, j :: 1 <= i && i + 2 <= j <= |s| - 2 && s[i] == '@' && s[j] == '.'
  }

  /** The first position of `c` in `s`, or `|s|`. */
  function FirstOf(s: string, c: char): (r: nat)
    ensures r <= |s|
    ensures r < |s| ==> s[r] == c
    ensures forall k :: 0 <= k < r ==> s[k] != c
  {
    if s == [] then 0
    else if s[0] == c then 0
    else 1 + FirstOf(s[1..], c)
  }

  /** The last position before `n` holding `c`, or -1. */
  function LastBefore(s: string, n: nat, c: char): (r: int)
    requires n <= |s|
    ensures -1 <= r < n
    ensures r >= 0 ==> s[r] == c
    ensures forall k :: r < k < n ==> s[k] != c
  {
    if n == 0 then -1
    else if s[n - 1] == c then n - 1
    else LastBefore(s, n - 1, c)
  }

  /** `isValidEmail`: no whitespace, an `@` after the first character, and a
      `.` with at least one character on each side at least two places after
      that `@`. */
  function IsValidEmail(s: string): (r: bool)
    ensures r <==> EmailShape(s)
  {
    if s == [] then
      EmailShapeSplits(s);
      false
    else
      var at := 1 + FirstOf(s[1..], '@');
      var dot := LastBefore(s, |s| - 1, '.');
      EmailShapeSplits(s);
      EmailScan(s);
      NoWhitespace(s) && at < |s| && dot >= at + 2
  }

  /** The shape a@b.c, stated on positions. */
  lemma EmailShapeSplits(s: string)
    ensures EmailShape(s) <==> NoWhitespace(s) && SplitPoints(s)
  {
    if IsJoined(s) {
      JoinedGivesSplit(s);
    }
    if SplitPoints(s) {
      SplitGivesJoined(s);
    }
  }

  lemma JoinedGivesSplit(s: string)
    requires IsJoined(s)
    ensures SplitPoints(s)
  {
    var a: string, b: string, c: string :| |a| > 0 && |b| > 0 && |c| > 0 && s == Joined(a, b, c);
    JoinedPositions(a, b, c);
    assert 1 <= |a| && |a| + 2 <= |a| + 1 + |b| <= |s| - 2;
  }

  lemma SplitGivesJoined(s: string)
    requires SplitPoints(s)
    ensures IsJoined(s)
  {
    var i, j :| 1 <= i && i + 2 <= j <= |s| - 2 && s[i] == '@' && s[j] == '.';
    assert s == Joined(s[..i], s[i + 1..j], s[j + 1..]);
  }

  lemma JoinedPositions(a: string, b: string, c: string)
    ensures var s := Joined(a, b, c); s[|a|] == '@' && s[|a| + 1 + |b|] == '.' && |s| == |a| + |b| + |c| + 2
  {
  }

  /** The first `@` after the first character and the last `.` before the
      last character are the best split points there are. */
  lemma EmailScan(s: string)
    requires s != []
    ensures var at := 1 + FirstOf(s[1..], '@');
            var dot := LastBefore(s, |s| - 1, '.');
            SplitPoints(s) <==> at < |s| && dot >= at + 2
  {
    var at := 1 + FirstOf(s[1..], '@');
    var dot := LastBefore(s, |s| - 1, '.');
    if SplitPoints(s) {
      var i, j :| 1 <= i && i + 2 <= j <= |s| - 2 && s[i] == '@' && s[j] == '.';
      assert s[1..][i - 1] == '@';
    }
    if at < |s| && dot >= at + 2 {
      assert s[at] == s[1..][at - 1];
    }
  }

  // ---------------------------------------------------------------------
  // isStrongPassword

  /** No line terminator among the first `i` characters: the characters a
      `.*` starting at position 0 can consume before reaching position `i`. */
  ghost predicate DotsUpTo(s: string, i: int)
  {
    forall k :: 0 <= k < i && k < |s| ==> !IsLineTerminator(s[k])
  }

  /** `/^(?=.*[a-z])(?=.*[A-Z])(?=.*\d).{6,}$/` read as the regular
      expression engine runs it: each lookahead at position 0 needs a
      character of its class reached over `.*`, and then `.{6,}$` consumes
      the whole string, six or more characters none of which is a line
      terminator. */
  ghost predicate StrongPattern(s: string)
  {
    && (exists i :: 0 <= i < |s| && IsLower(s[i]) && DotsUpTo(s, i))
    && (exists i :: 0 <= i < |s| && IsUpper(s[i]) && DotsUpTo(s, i))
    && (exists i :: 0 <= i < |s| && IsDigit(s[i]) && DotsUpTo(s, i))
    && |s| >= 6 && DotsUpTo(s, |s|)
  }

  /** `isStrongPassword`: six or more characters, none a line terminator,
      with a lower-case letter, an upper-case letter and a digit somewhere;
      exactly the strings the expression accepts. */
  function IsStrongPassword(s: string): (r: bool)
    ensures r <==> StrongPattern(s)
  {
    && |s| >= 6
    && (forall i :: 0 <= i < |s| ==> !IsLineTerminator(s[i]))
    && (exists i :: 0 <= i < |s| && IsLower(s[i]))
    && (exists i :: 0 <= i < |s| && IsUpper(s[i]))
    && (exists i :: 0 <= i < |s| && IsDigit(s[i]))
  }

  /** A password lacking lower-case letters, upper-case letters or digits,
      holding a line break, or shorter than six characters is never strong. */
  lemma StrongPasswordNeedsAllClasses(s: string)
    ensures (forall i :: 0 <= i < |s| ==> !IsLower(s[i])) ==> !IsStrongPassword(s)
    ensures (forall i :: 0 <= i < |s| ==> !IsUpper(s[i])) ==> !IsStrongPassword(s)
    ensures (forall i :: 0 <= i < |s| ==> !IsDigit(s[i])) ==> !IsStrongPassword(s)
    ensures (exists i :: 0 <= i < |s| && IsLineTerminator(s[i])) ==> !IsStrongPassword(s)
    ensures |s| < 6 ==> !IsStrongPassword(s)
  {
  }

  /** Two concrete answers of the expression. */
  lemma StrongPasswordExamples()
    ensures IsStrongPassword("Abc123")
    ensures !IsStrongPassword("Ab1")
    ensures !IsStrongPassword("Abc\n123")
  {
    assert IsLower("Abc123"[1]) && IsUpper("Abc123"[0]) && IsDigit("Abc123"[3]);
    assert IsLineTerminator("Abc\n123"[3]);
  }

  // ---------------------------------------------------------------------
  // isValidUsername

  /** The characters of `[a-zA-Z0-9_-]`. */
  predicate IsUsernameChar(c: char)
  {
    IsLower(c) || IsUpper(c) || IsDigit(c) || c == '_' || c == '-'
  }

  /** `isValidUsername`, `/^[a-zA-Z0-9_-]{3,30}$/`. An accepted name holds
      neither whitespace nor `@`, so it can never be mistaken for an email
      address, and trimming leaves it as it is. */
  function IsValidUsername(s: string): (r: bool)
    ensures r ==> 3 <= |s| <= 30 && NoWhitespace(s) && !IsValidEmail(s) && Trim(s) == s
  {
    EmailShapeSplits(s);
    3 <= |s| <= 30 && forall i :: 0 <= i < |s| ==> IsUsernameChar(s[i])
  }
}
