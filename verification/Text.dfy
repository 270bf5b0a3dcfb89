/** The string operations the modules share. */
module Text {
  import opened Wrappers

  /** White space as Unicode defines it. */
  predicate IsWhitespace(c: char) {
    || '\U{0009}' <= c <= '\U{000D}'
    || c == ' ' || c == '\U{0085}' || c == '\U{00A0}' || c == '\U{1680}'
    || '\U{2000}' <= c <= '\U{200A}'
    || c == '\U{2028}' || c == '\U{2029}' || c == '\U{202F}' || c == '\U{205F}' || c == '\U{3000}'
  }

  /** The twenty-five white space characters of Unicode. */
  lemma WhitespaceExactly(c: char)
    ensures IsWhitespace(c) <==> c in {
      '\t', '\n', '\U{000B}', '\U{000C}', '\r', ' ', '\U{0085}', '\U{00A0}', '\U{1680}',
      '\U{2000}', '\U{2001}', '\U{2002}', '\U{2003}', '\U{2004}', '\U{2005}', '\U{2006}', '\U{2007}',
      '\U{2008}', '\U{2009}', '\U{200A}', '\U{2028}', '\U{2029}', '\U{202F}', '\U{205F}', '\U{3000}'}
  {
  }

  function TrimStart(s: string): (r: string)
    ensures |r| <= |s| && r == s[|s| - |r|..] && (r == [] || !IsWhitespace(r[0]))
    ensures forall k | 0 <= k < |s| - |r| :: IsWhitespace(s[k])
  {
    if s != [] && IsWhitespace(s[0]) then TrimStart(s[1..]) else s
  }

  function TrimEnd(s: string): (r: string)
    ensures r <= s && (r == [] || !IsWhitespace(r[|r| - 1]))
    ensures forall k | |r| <= k < |s| :: IsWhitespace(s[k])
  {
    if s != [] && IsWhitespace(s[|s| - 1]) then TrimEnd(s[..|s| - 1]) else s
  }

  function Trim(s: string): string {
    TrimEnd(TrimStart(s))
  }

  /** The text occurs in the string at some position. */
  predicate Contains(s: string, part: string) {
    exists i | 0 <= i <= |s| :: part <= s[i..]
  }

  /** The first position of a character. */
  function FindChar(s: string, c: char): (r: Option<nat>)
    ensures r.None? <==> c !in s
    ensures r.Some? ==> r.value < |s| && s[r.value] == c && c !in s[..r.value]
  {
    if s == [] then None
    else if s[0] == c then Some(0)
    else
      match FindChar(s[1..], c)
      case None => None
      case Some(n) => assert s[..n + 1] == [s[0]] + s[1..][..n]; Some(n + 1)
  }

  /** The first position from `from` on at which the text occurs. */
  function FindFrom(s: string, part: string, from: nat): (r: Option<nat>)
    requires from <= |s|
    ensures r.Some? ==> from <= r.value <= |s| && part <= s[r.value..]
    ensures r.Some? ==> forall i | from <= i < r.value :: !(part <= s[i..])
    ensures r.None? ==> forall i | from <= i <= |s| :: !(part <= s[i..])
    decreases |s| - from
  {
    if part <= s[from..] then Some(from)
    else if from == |s| then None
    else FindFrom(s, part, from + 1)
  }

  function Find(s: string, part: string): Option<nat> {
    FindFrom(s, part, 0)
  }

  /** The last position up to `upTo` at which the text occurs. */
  function FindBack(s: string, part: string, upTo: nat): (r: Option<nat>)
    requires upTo <= |s|
    ensures r.Some? ==> r.value <= upTo && part <= s[r.value..]
    ensures r.Some? ==> forall i | r.value < i <= upTo :: !(part <= s[i..])
    ensures r.None? ==> forall i | 0 <= i <= upTo :: !(part <= s[i..])
    decreases upTo
  {
    if part <= s[upTo..] then Some(upTo)
    else if upTo == 0 then None
    else FindBack(s, part, upTo - 1)
  }

  function RFind(s: string, part: string): Option<nat> {
    FindBack(s, part, |s|)
  }

  function SplitOnce(s: string, sep: string): Option<(string, string)> {
    match Find(s, sep)
    case None => None
    case Some(i) => Some((s[..i], s[i + |sep|..]))
  }

  function RSplitOnce(s: string, sep: string): Option<(string, string)> {
    match RFind(s, sep)
    case None => None
    case Some(i) => Some((s[..i], s[i + |sep|..]))
  }

  function StripPrefix(s: string, prefix: string): Option<string> {
    if prefix <= s then Some(s[|prefix|..]) else None
  }

  function StripSuffix(s: string, suffix: string): Option<string> {
    if |suffix| <= |s| && s[|s| - |suffix|..] == suffix then Some(s[..|s| - |suffix|]) else None
  }

  /** The leading characters that are no white space. */
  function FirstWord(s: string): (r: string)
    ensures r <= s && (forall k | 0 <= k < |r| :: !IsWhitespace(r[k]))
    ensures |r| < |s| ==> IsWhitespace(s[|r|])
  {
    if s == [] || IsWhitespace(s[0]) then [] else [s[0]] + FirstWord(s[1..])
  }

  function SplitWhitespace(s: string): seq<string>
    decreases |s|
  {
    var t := TrimStart(s);
    if t == [] then []
    else
      var w := FirstWord(t);
      [w] + SplitWhitespace(t[|w|..])
  }

  function JoinWords(words: seq<string>): string {
    if words == [] then []
    else if |words| == 1 then words[0]
    else words[0] + " " + JoinWords(words[1..])
  }

  // ---------------------------------------------------------------------------
  // Trimmed texts and separators
  // ---------------------------------------------------------------------------

  /** A text that neither starts nor ends with white space, and is not empty. */
  predicate Trimmed(s: string) {
    s != [] && !IsWhitespace(s[0]) && !IsWhitespace(s[|s| - 1])
  }

  lemma TrimTrimmed(s: string)
    requires Trimmed(s)
    ensures Trim(s) == s && Trim(" " + s) == s && Trim(s + " ") == s
  {
    assert (" " + s)[1..] == s;
    assert TrimStart(" " + s) == s;
    assert (s + " ")[..|s|] == s;
    assert TrimEnd(s + " ") == s;
  }

  /** The separator does not occur before the end of the text, not even across it. */
  predicate Clear(left: string, sep: string) {
    forall i | 0 <= i < |left| :: !(sep <= (left + sep)[i..])
  }

  /** Splitting undoes joining exactly when the left part is clear of the separator. */
  lemma SplitOnceExact(left: string, sep: string, right: string)
    requires sep != []
    ensures SplitOnce(left + sep + right, sep) == Some((left, right)) <==> Clear(left, sep)
  {
    var s := left + sep + right;
    assert s[|left|..] == sep + right;
    forall i | 0 <= i < |left| ensures sep <= s[i..] <==> sep <= (left + sep)[i..] {
      assert s[i..] == (left + sep)[i..] + right;
    }
    assert s[..|left|] == left && s[|left| + |sep|..] == right;
    var f := Find(s, sep);
    assert f.Some? && f.value <= |left|;
    if !Clear(left, sep) {
      var i :| 0 <= i < |left| && sep <= (left + sep)[i..];
      assert f.value < |left|;
      assert |s[..f.value]| < |left|;
    }
  }

  /** Where the left part is not clear of the separator, the split comes too early. */
  lemma SplitEarlier(left: string, sep: string, right: string)
    requires sep != [] && !Clear(left, sep)
    ensures SplitOnce(left + sep + right, sep).Some?
    ensures |SplitOnce(left + sep + right, sep).value.0| < |left|
  {
    var s := left + sep + right;
    var i :| 0 <= i < |left| && sep <= (left + sep)[i..];
    assert s[i..] == (left + sep)[i..] + right;
  }

  lemma SplitOnceNone(s: string, sep: string)
    ensures SplitOnce(s, sep) == None <==> !Contains(s, sep)
  {
  }

  /** What splitting at the first separator means. */
  lemma SplitOnceMeans(s: string, sep: string, left: string, right: string)
    requires sep != []
    ensures SplitOnce(s, sep) == Some((left, right)) <==> s == left + sep + right && Clear(left, sep)
  {
    SplitOnceExact(left, sep, right);
    hide Clear;
    if SplitOnce(s, sep) == Some((left, right)) {
      var i := Find(s, sep).value;
      assert s[i..i + |sep|] == s[i..][..|sep|] == sep;
      assert s == s[..i] + s[i..i + |sep|] + s[i + |sep|..];
    }
  }

  /** What splitting at the last occurrence of a character means. */
  lemma RSplitOnceMeans(s: string, c: char, left: string, right: string)
    ensures RSplitOnce(s, [c]) == Some((left, right)) <==> s == left + [c] + right && c !in right
  {
    if s == left + [c] + right && c !in right {
      assert s[|left|..] == [c] + right;
      forall i | |left| < i <= |s| ensures !([c] <= s[i..]) {
        assert i < |s| ==> s[i] == right[i - |left| - 1];
      }
      assert s[..|left|] == left && s[|left| + 1..] == right;
    }
    if RSplitOnce(s, [c]) == Some((left, right)) {
      var i := RFind(s, [c]).value;
      assert s[i] == s[i..][0] == c;
      forall k | 0 <= k < |right| ensures right[k] != c {
        assert right[k] == s[i + 1 + k] == s[i + 1 + k..][0];
        assert !([c] <= s[i + 1 + k..]);
      }
      assert s == s[..i] + [c] + s[i + 1..];
    }
  }

  predicate AllWhitespace(s: string) {
    forall k | 0 <= k < |s| :: IsWhitespace(s[k])
  }

  /** Trimming takes off white space at both ends, and all of it. */
  lemma TrimExact(s: string) returns (before: string, after: string)
    ensures s == before + Trim(s) + after && AllWhitespace(before) && AllWhitespace(after)
    ensures Trim(s) == [] || Trimmed(Trim(s))
  {
    hide TrimStart, TrimEnd, IsWhitespace, AllWhitespace;
    var t := TrimStart(s);
    var r := TrimEnd(t);
    before, after := s[..|s| - |t|], t[|r|..];
    OffTheFront(s);
    OffTheEnd(t);
    assert r != [] ==> r[0] == t[0];
    MiddlePart(s, t, r);
  }

  lemma OffTheFront(s: string)
    ensures AllWhitespace(s[..|s| - |TrimStart(s)|])
  {
    hide TrimStart, IsWhitespace;
  }

  lemma OffTheEnd(s: string)
    ensures AllWhitespace(s[|TrimEnd(s)|..])
  {
    hide TrimEnd, IsWhitespace;
  }

  lemma MiddlePart<T>(s: seq<T>, t: seq<T>, r: seq<T>)
    requires |t| <= |s| && t == s[|s| - |t|..] && r <= t
    ensures s == s[..|s| - |t|] + r + t[|r|..]
  {
    assert t == r + t[|r|..];
  }

  // ---------------------------------------------------------------------------
  // Decimal numbers
  // ---------------------------------------------------------------------------

  predicate IsDigit(c: char) {
    '0' <= c <= '9'
  }

  predicate AllDigits(s: string) {
    forall k | 0 <= k < |s| :: IsDigit(s[k])
  }

  function Decimal(n: nat): (r: string)
    ensures r != [] && AllDigits(r)
  {
    var digit := ['0' + (n % 10) as char];
    if n < 10 then digit else Decimal(n / 10) + digit
  }

  function DigitsValue(s: string): nat
    requires AllDigits(s)
  {
    if s == [] then 0 else DigitsValue(s[..|s| - 1]) * 10 + (s[|s| - 1] - '0') as nat
  }

  /** An unsigned number: digits after an optional plus, at least one, and within the range. */
  function ParseUnsigned(s: string, max: nat): Option<nat> {
    var digits := if s != [] && s[0] == '+' then s[1..] else s;
    if digits == [] || !AllDigits(digits) || DigitsValue(digits) > max then None
    else Some(DigitsValue(digits))
  }

  function ParseI32(s: string): Option<int> {
    if s != [] && s[0] == '-' then
      var digits := s[1..];
      if digits == [] || !AllDigits(digits) || DigitsValue(digits) > 0x8000_0000 then None
      else var n: int := DigitsValue(digits); Some(-n)
    else
      match ParseUnsigned(s, 0x7FFF_FFFF)
      case None => None
      case Some(n) => Some(n)
  }

  function SignedDecimal(n: int): string {
    if n < 0 then "-" + Decimal(-n) else Decimal(n)
  }

  lemma {:induction false} DecimalValue(n: nat)
    ensures DigitsValue(Decimal(n)) == n
  {
    if n >= 10 {
      DecimalValue(n / 10);
      var front, digit := Decimal(n / 10), ['0' + (n % 10) as char];
      assert (front + digit)[..|front|] == front;
    }
  }

  /** Printing and parsing of numbers. */
  lemma ParseDecimal(n: nat, max: nat)
    ensures ParseUnsigned(Decimal(n), max) == if n <= max then Some(n) else None
  {
    DecimalValue(n);
    assert IsDigit(Decimal(n)[0]);
  }

  lemma ParseSignedDecimal(n: int)
    ensures ParseI32(SignedDecimal(n)) == if -0x8000_0000 <= n < 0x8000_0000 then Some(n) else None
  {
    hide Decimal, DigitsValue;
    if n < 0 {
      DecimalValue(-n);
      assert SignedDecimal(n)[1..] == Decimal(-n);
    } else {
      ParseDecimal(n, 0x7FFF_FFFF);
      assert IsDigit(Decimal(n)[0]);
      hide ParseUnsigned;
    }
  }

  predicate AllZeros(s: string) {
    forall k | 0 <= k < |s| :: s[k] == '0'
  }

  /** Digits are a decimal number after any zeros. */
  lemma {:induction false} DigitsCanonical(s: string) returns (zeros: string)
    requires s != [] && AllDigits(s)
    ensures AllZeros(zeros) && s == zeros + Decimal(DigitsValue(s))
    decreases |s|
  {
    var front, d := s[..|s| - 1], s[|s| - 1];
    var v := DigitsValue(front);
    LastSplit(s);
    var digit: nat := (d - '0') as nat;
    assert (v * 10 + digit) % 10 == digit && (v * 10 + digit) / 10 == v;
    if front == [] {
      zeros := [];
      assert s == [d];
    } else {
      zeros := DigitsCanonical(front);
      if v == 0 {
        zeros := zeros + "0";
      }
    }
  }

  lemma {:induction false} ZerosValue(zeros: string, s: string)
    requires AllZeros(zeros) && AllDigits(s)
    ensures AllDigits(zeros + s) && DigitsValue(zeros + s) == DigitsValue(s)
    decreases |s|, |zeros|
  {
    if s == [] {
      assert zeros + s == zeros;
      if zeros != [] {
        ZerosValue(zeros[..|zeros| - 1], []);
        assert zeros[..|zeros| - 1] + [] == zeros[..|zeros| - 1];
      }
    } else {
      ZerosValue(zeros, s[..|s| - 1]);
      assert (zeros + s)[..|zeros + s| - 1] == zeros + s[..|s| - 1];
    }
  }

  /** A plus or none, and the decimal digits of the number after any zeros. */
  predicate UnsignedForm(s: string, n: nat, plus: string, zeros: string) {
    plus in ["", "+"] && AllZeros(zeros) && s == plus + (zeros + Decimal(n))
  }

  /** The texts read as a number: its decimal digits after any zeros, and after one plus or none. */
  lemma ParseUnsignedExact(s: string, max: nat, n: nat)
    ensures ParseUnsigned(s, max) == Some(n) <==>
      n <= max && exists plus, zeros :: UnsignedForm(s, n, plus, zeros)
  {
    var plus := if s != [] && s[0] == '+' then "+" else "";
    var digits := s[|plus|..];
    assert s == plus + digits;
    assert digits == if s != [] && s[0] == '+' then s[1..] else s;
    if ParseUnsigned(s, max) == Some(n) {
      var zeros := DigitsCanonical(digits);
      assert UnsignedForm(s, n, plus, zeros);
    }
    if p, zeros :| UnsignedForm(s, n, p, zeros) {
      ZerosValue(zeros, Decimal(n));
      DecimalValue(n);
      PlusIs(p, plus, zeros + Decimal(n), digits);
      assert DigitsValue(digits) == n;
    }
  }

  lemma PlusIs(p: string, plus: string, a: string, digits: string)
    requires p in ["", "+"] && p + a == plus + digits && a != [] && AllDigits(a)
    requires plus == if (plus + digits) != [] && (plus + digits)[0] == '+' then "+" else ""
    ensures p == plus && a == digits
  {
    var s := p + a;
    if p == "" {
      assert s == a && IsDigit(s[0]);
      assert plus + digits == digits;
    } else {
      assert s[0] == '+';
      assert s[1..] == a && (plus + digits)[1..] == digits;
    }
  }

  /** A sign or none, and the decimal digits of the number after any zeros. */
  predicate SignedForm(s: string, n: int, sign: string, zeros: string) {
    && AllZeros(zeros)
    && if sign == "-" then n <= 0 && s == "-" + (zeros + Decimal(-n))
       else n >= 0 && sign in ["", "+"] && s == sign + (zeros + Decimal(n))
  }

  /** The texts read as a signed 32-bit number. */
  lemma ParseI32Exact(s: string, n: int)
    ensures ParseI32(s) == Some(n) <==>
      -0x8000_0000 <= n < 0x8000_0000
      && exists sign, zeros :: SignedForm(s, n, sign, zeros)
  {
    if s != [] && s[0] == '-' {
      var digits := s[1..];
      assert s == "-" + digits;
      if ParseI32(s) == Some(n) {
        var zeros := DigitsCanonical(digits);
        assert SignedForm(s, n, "-", zeros);
      }
      if sign, zeros :| SignedForm(s, n, sign, zeros) {
        var m := if n < 0 then -n else n;
        ZerosValue(zeros, Decimal(m));
        DecimalValue(m);
        assert IsDigit((zeros + Decimal(m))[0]);
        assert (sign + (zeros + Decimal(m)))[0] == '-';
        assert sign == "-";
        assert s[1..] == zeros + Decimal(m);
      }
    } else {
      ParseI32Unsigned(s, n);
    }
  }

  lemma ParseI32Unsigned(s: string, n: int)
    requires s == [] || s[0] != '-'
    ensures ParseI32(s) == Some(n) <==>
      -0x8000_0000 <= n < 0x8000_0000
      && exists sign, zeros :: SignedForm(s, n, sign, zeros)
  {
    if n >= 0 {
      ParseUnsignedExact(s, 0x7FFF_FFFF, n);
    }
    if ParseI32(s) == Some(n) {
      var plus, zeros :| UnsignedForm(s, n, plus, zeros);
      assert SignedForm(s, n, plus, zeros);
    }
    if sign, zeros :| SignedForm(s, n, sign, zeros) {
      assert sign != "-";
      assert UnsignedForm(s, n, sign, zeros);
    }
  }

  // Facts about sequences, stated for any element type

  lemma Assoc<T>(a: seq<T>, b: seq<T>, c: seq<T>)
    ensures a + (b + c) == (a + b) + c
  {
  }

  lemma Cancel<T>(a: seq<T>, b: seq<T>, c: seq<T>)
    requires a + b == a + c
    ensures b == c
  {
    assert b == (a + b)[|a|..] && c == (a + c)[|a|..];
  }

  lemma Beginning<T>(a: seq<T>, b: seq<T>, c: seq<T>)
    requires a + b <= c
    ensures a <= c
  {
    assert a == (a + b)[..|a|] == c[..|a|];
  }

  lemma LastSplit<T>(s: seq<T>)
    requires s != []
    ensures s == s[..|s| - 1] + [s[|s| - 1]]
  {
  }

  lemma Appended<T>(s: seq<T>, last: T)
    ensures (s + [last])[..|s|] == s
  {
  }

  // ---------------------------------------------------------------------------
  // Cutting a text at a separator
  // ---------------------------------------------------------------------------

  /** The text cut at every separator; there is always a last piece, possibly empty. */
  function Pieces(text: string, sep: char): (r: seq<string>)
    ensures r != []
  {
    if text == [] then [[]]
    else
      var n := |text| - 1;
      var before := Pieces(text[..n], sep);
      if text[n] == sep then before + [[]]
      else before[..|before| - 1] + [before[|before| - 1] + [text[n]]]
  }

  function JoinPieces(pieces: seq<string>, sep: char): string {
    if pieces == [] then []
    else if |pieces| == 1 then pieces[0]
    else JoinPieces(pieces[..|pieces| - 1], sep) + [sep] + pieces[|pieces| - 1]
  }

  predicate FreeOf(pieces: seq<string>, sep: char) {
    forall k | 0 <= k < |pieces| :: sep !in pieces[k]
  }

  /** Cutting and joining are inverse to each other. */
  lemma {:induction false} PiecesJoin(text: string, sep: char)
    ensures JoinPieces(Pieces(text, sep), sep) == text && FreeOf(Pieces(text, sep), sep)
  {
    if text != [] {
      var n := |text| - 1;
      PiecesJoin(text[..n], sep);
      var before, p := Pieces(text[..n], sep), Pieces(text, sep);
      var m := |before| - 1;
      assert text == text[..n] + [text[n]];
      if text[n] == sep {
        assert p[..|p| - 1] == before;
        assert JoinPieces(p, sep) == JoinPieces(before, sep) + [sep] + [];
      } else {
        assert p[..|p| - 1] == before[..m];
      }
    }
  }

  /** The pieces after one more character. */
  function Extended(pieces: seq<string>, c: char, sep: char): seq<string>
    requires pieces != []
  {
    var m := |pieces| - 1;
    if c == sep then pieces + [[]] else pieces[..m] + [pieces[m] + [c]]
  }

  lemma PiecesSnoc(text: string, c: char, sep: char)
    ensures Pieces(text + [c], sep) == Extended(Pieces(text, sep), c, sep)
  {
    assert (text + [c])[..|text|] == text;
  }

  /** There is only one way to cut a text into separator-free pieces. */
  lemma {:induction false} PiecesUnique(pieces: seq<string>, sep: char)
    requires pieces != [] && FreeOf(pieces, sep)
    ensures Pieces(JoinPieces(pieces, sep), sep) == pieces
    decreases |pieces|, |pieces[|pieces| - 1]|
  {
    var before, last := pieces[..|pieces| - 1], pieces[|pieces| - 1];
    LastSplit(pieces);
    if last == [] {
      if before == [] {
        assert pieces == [[]];
      } else {
        PiecesUnique(before, sep);
        PiecesSnoc(JoinPieces(before, sep), sep, sep);
        assert JoinPieces(pieces, sep) == JoinPieces(before, sep) + [sep];
      }
    } else {
      var c, less := last[|last| - 1], last[..|last| - 1];
      LastSplit(last);
      PiecesUnique(before + [less], sep);
      PiecesSnoc(JoinPieces(before + [less], sep), c, sep);
      JoinLonger(before, less, c, sep);
      hide Pieces, JoinPieces;
      Appended(before, less);
    }
  }

  lemma JoinLonger(before: seq<string>, last: string, c: char, sep: char)
    ensures JoinPieces(before + [last + [c]], sep) == JoinPieces(before + [last], sep) + [c]
  {
    Appended(before, last + [c]);
    Appended(before, last);
  }

  lemma ExtendedAfter(before: seq<string>, pieces: seq<string>, c: char, sep: char)
    requires pieces != []
    ensures Extended(before + pieces, c, sep) == before + Extended(pieces, c, sep)
  {
    var front, last := pieces[..|pieces| - 1], pieces[|pieces| - 1];
    LastSplit(pieces);
    Assoc(before, front, [last]);
    Appended(before + front, last);
    Assoc(before, front, [last + [c]]);
    Assoc(before, pieces, [[]]);
  }

  /** Cutting a longer text only continues the last piece. */
  lemma {:induction false} PiecesAppend(a: string, b: string, sep: char)
    ensures var p := Pieces(a, sep); Pieces(a + b, sep) == p[..|p| - 1] + Pieces(p[|p| - 1] + b, sep)
  {
    hide Pieces, Extended;
    var p := Pieces(a, sep);
    var m := |p| - 1;
    if b == [] {
      assert a + b == a && p[m] + b == p[m];
      PiecesJoin(a, sep);
      PiecesUnique([p[m]], sep);
      assert p == p[..m] + [p[m]];
    } else {
      var n := |b| - 1;
      PiecesAppend(a, b[..n], sep);
      assert a + b == (a + b[..n]) + [b[n]];
      assert p[m] + b == (p[m] + b[..n]) + [b[n]];
      PiecesSnoc(a + b[..n], b[n], sep);
      PiecesSnoc(p[m] + b[..n], b[n], sep);
      ExtendedAfter(p[..m], Pieces(p[m] + b[..n], sep), b[n], sep);
    }
  }

  /** Two texts with a separator between them are cut one after the other. */
  lemma PiecesBetween(a: string, b: string, sep: char)
    ensures Pieces(a + [sep] + b, sep) == Pieces(a, sep) + Pieces(b, sep)
  {
    hide Pieces, Extended;
    PiecesAppend(a + [sep], b, sep);
    PiecesSnoc(a, sep, sep);
    EmptyLast(Pieces(a, sep), sep);
    assert [] + b == b;
  }

  lemma EmptyLast(pieces: seq<string>, sep: char)
    requires pieces != []
    ensures var p := Extended(pieces, sep, sep); p[..|p| - 1] == pieces && p[|p| - 1] == []
  {
  }
}
