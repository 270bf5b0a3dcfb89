/** Cutting texts to size without cutting a character apart.  A text is a sequence of Unicode
    scalar values, encoded as in section 3 of RFC 3629. */
module Utf8 {
  import opened Text

  type Byte = b: int | 0 <= b < 0x100

  type Scalar = c: int | 0 <= c < 0x110000 && !(0xD800 <= c < 0xE000)

  function EncodeScalar(c: Scalar): (r: seq<Byte>)
    ensures 1 <= |r| <= 4
    ensures !IsContinuation(r[0]) && forall k | 1 <= k < |r| :: IsContinuation(r[k])
    ensures |r| == 1 <==> c < 0x80
  {
    if c < 0x80 then [c]
    else if c < 0x800 then [0xC0 + c / 0x40, 0x80 + c % 0x40]
    else if c < 0x10000 then [0xE0 + c / 0x1000, 0x80 + c / 0x40 % 0x40, 0x80 + c % 0x40]
    else [0xF0 + c / 0x40000, 0x80 + c / 0x1000 % 0x40, 0x80 + c / 0x40 % 0x40, 0x80 + c % 0x40]
  }

  predicate IsContinuation(b: Byte) {
    0x80 <= b < 0xC0
  }

  function Encode(s: seq<Scalar>): seq<Byte> {
    if s == [] then [] else Encode(s[..|s| - 1]) + EncodeScalar(s[|s| - 1])
  }

  /** Where the `k`-th character starts. */
  function Start(s: seq<Scalar>, k: nat): nat
    requires k <= |s|
  {
    |Encode(s[..k])|
  }

  /** The test of the standard library: the start, the end, or a byte that starts a character. */
  predicate IsCharBoundary(bytes: seq<Byte>, i: nat) {
    i == 0 || i == |bytes| || (i < |bytes| && !IsContinuation(bytes[i]))
  }

  lemma EncodeNext(s: seq<Scalar>, k: nat)
    requires k < |s|
    ensures Encode(s[..k + 1]) == Encode(s[..k]) + EncodeScalar(s[k])
  {
    assert s[..k + 1][..k] == s[..k];
  }

  lemma {:induction false} StartsGrow(s: seq<Scalar>, j: nat, k: nat)
    requires j <= k <= |s|
    ensures Start(s, j) + (k - j) <= Start(s, k)
    ensures Start(s, k) <= Start(s, j) + 4 * (k - j)
    decreases k
  {
    if j < k {
      hide Encode;
      StartsGrow(s, j, k - 1);
      EncodeNext(s, k - 1);
    }
  }

  /** The encoding of a text starts with the encodings of its beginnings. */
  lemma {:induction false} EncodePrefix(s: seq<Scalar>, j: nat, k: nat)
    requires j <= k <= |s|
    ensures Encode(s[..j]) <= Encode(s[..k])
    decreases k
  {
    if j < k {
      EncodePrefix(s, j, k - 1);
      EncodeNext(s, k - 1);
    }
  }

  /** A byte position either starts a character or is inside one. */
  lemma {:induction false} Locate(s: seq<Scalar>, i: nat) returns (k: nat)
    requires i < |Encode(s)|
    ensures k < |s| && Start(s, k) <= i < Start(s, k + 1)
    decreases |s|
  {
    var n := |s| - 1;
    assert s[..n + 1] == s;
    if i < Start(s, n) {
      k := Locate(s[..n], i);
      assert s[..n][..k] == s[..k] && s[..n][..k + 1] == s[..k + 1];
    } else {
      k := n;
    }
  }

  /** Continuation bytes are exactly the bytes inside a character. */
  lemma BoundaryAt(s: seq<Scalar>, i: nat, k: nat)
    requires k < |s| && Start(s, k) <= i < Start(s, k + 1)
    ensures i < |Encode(s)|
    ensures IsContinuation(Encode(s)[i]) <==> i != Start(s, k)
  {
    EncodeNext(s, k);
    EncodePrefix(s, k + 1, |s|);
    assert s[..|s|] == s;
    hide Encode;
    assert Encode(s)[i] == Encode(s[..k + 1])[i] == EncodeScalar(s[k])[i - Start(s, k)];
  }

  /** A position is a character boundary exactly if a character starts there or the text ends. */
  lemma BoundaryExact(s: seq<Scalar>, i: nat)
    requires i <= |Encode(s)|
    ensures IsCharBoundary(Encode(s), i) <==> exists k | 0 <= k <= |s| :: Start(s, k) == i
  {
    assert s[..0] == [] && s[..|s|] == s;
    assert Start(s, 0) == 0 && Start(s, |s|) == |Encode(s)|;
    if i < |Encode(s)| {
      var k := Locate(s, i);
      BoundaryAt(s, i, k);
      if j :| 0 <= j <= |s| && Start(s, j) == i {
        if j < k { StartsGrow(s, j, k); }
        if k + 1 < j { StartsGrow(s, k + 1, j); }
      }
    }
  }

  /** The inverse table of the standard: the payload bits of the bytes, put together. */
  function DecodeScalar(r: seq<int>): int
    requires 1 <= |r| <= 4
  {
    if |r| == 1 then r[0]
    else if |r| == 2 then (r[0] - 0xC0) * 0x40 + (r[1] - 0x80)
    else if |r| == 3 then ((r[0] - 0xE0) * 0x40 + (r[1] - 0x80)) * 0x40 + (r[2] - 0x80)
    else (((r[0] - 0xF0) * 0x40 + (r[1] - 0x80)) * 0x40 + (r[2] - 0x80)) * 0x40 + (r[3] - 0x80)
  }

  lemma Base64Digits(c: nat)
    ensures c == c / 0x40 * 0x40 + c % 0x40
    ensures c / 0x40 == c / 0x1000 * 0x40 + c / 0x40 % 0x40
    ensures c / 0x1000 == c / 0x40000 * 0x40 + c / 0x1000 % 0x40
  {
  }

  lemma DecodeEncode(c: Scalar)
    ensures DecodeScalar(EncodeScalar(c)) == c
  {
    Base64Digits(c);
  }

  /** The last character starts at the last byte that is no continuation byte. */
  lemma LastStart(s: seq<Scalar>, i: nat)
    requires s != [] && Start(s, |s| - 1) <= i < |Encode(s)|
    ensures IsContinuation(Encode(s)[i]) <==> i != Start(s, |s| - 1)
  {
    assert s[..|s|] == s;
    BoundaryAt(s, i, |s| - 1);
  }

  lemma SplitLast(s: seq<Scalar>)
    requires s != []
    ensures var i := Start(s, |s| - 1);
      i < |Encode(s)| && Encode(s)[..i] == Encode(s[..|s| - 1]) && Encode(s)[i..] == EncodeScalar(s[|s| - 1])
  {
  }

  lemma SameLastStart(s: seq<Scalar>, t: seq<Scalar>)
    requires s != [] && t != [] && Encode(s) == Encode(t)
    ensures Start(s, |s| - 1) == Start(t, |t| - 1)
  {
    SplitLast(s);
    SplitLast(t);
    hide *;
    var i, j := Start(s, |s| - 1), Start(t, |t| - 1);
    if i < j {
      LastStart(s, j);
      LastStart(t, j);
    }
    if j < i {
      LastStart(s, i);
      LastStart(t, i);
    }
  }

  lemma SameLast(s: seq<Scalar>, t: seq<Scalar>)
    requires s != [] && t != [] && Encode(s) == Encode(t)
    ensures Encode(s[..|s| - 1]) == Encode(t[..|t| - 1]) && s[|s| - 1] == t[|t| - 1]
  {
    SplitLast(s);
    SplitLast(t);
    hide *;
    SameLastStart(s, t);
    DecodeEncode(s[|s| - 1]);
    DecodeEncode(t[|t| - 1]);
  }

  /** Different texts have different encodings, so a cut text says which characters were kept. */
  lemma {:induction false} EncodeInjective(s: seq<Scalar>, t: seq<Scalar>)
    requires Encode(s) == Encode(t)
    ensures s == t
    decreases |s|
  {
    if s == [] || t == [] {
      if s != [] { SplitLast(s); }
      if t != [] { SplitLast(t); }
    } else {
      hide *;
      SameLast(s, t);
      EncodeInjective(s[..|s| - 1], t[..|t| - 1]);
      LastSplit(s);
      LastSplit(t);
    }
  }

  // ---------------------------------------------------------------------------
  // The longest beginning that fits
  // ---------------------------------------------------------------------------

  /** How many characters at the beginning of the text fit into `budget` bytes. */
  function Fit(s: seq<Scalar>, budget: nat): (k: nat)
    ensures k <= |s|
  {
    if s == [] || |Encode(s)| <= budget then |s| else Fit(s[..|s| - 1], budget)
  }

  lemma {:induction false} FitExact(s: seq<Scalar>, budget: nat)
    ensures var k := Fit(s, budget);
      && Start(s, k) <= budget
      && (forall j | 0 <= j <= |s| && Start(s, j) <= budget :: j <= k)
    decreases |s|
  {
    assert s[..|s|] == s;
    if |Encode(s)| > budget {
      var n := |s| - 1;
      FitExact(s[..n], budget);
      forall j | 0 <= j <= n ensures s[..n][..j] == s[..j] {
      }
      forall j | 0 <= j <= |s| && Start(s, j) <= budget ensures j <= Fit(s, budget) {
        assert j < |s| ==> Start(s[..n], j) == Start(s, j);
      }
    }
  }

  /** A text that does not fit uses the budget up to at most three bytes. */
  lemma FitIsTight(s: seq<Scalar>, budget: nat)
    requires |Encode(s)| > budget
    ensures Fit(s, budget) < |s|
    ensures Start(s, Fit(s, budget)) <= budget < Start(s, Fit(s, budget)) + 4
  {
    FitExact(s, budget);
    var k := Fit(s, budget);
    assert s[..|s|] == s;
    assert Start(s, k + 1) > budget;
    StartsGrow(s, k, k + 1);
  }

  // ---------------------------------------------------------------------------
  // Truncation for the tool call log
  // ---------------------------------------------------------------------------

  const ELLIPSIS: seq<Scalar> := [0x2E, 0x2E, 0x2E]

  /** The bytes that the limit leaves beside the ellipsis. */
  function Room(maxLen: nat): nat {
    if maxLen < |ELLIPSIS| then 0 else maxLen - |ELLIPSIS|
  }

  lemma {:induction false} EncodeConcat(a: seq<Scalar>, b: seq<Scalar>)
    ensures Encode(a + b) == Encode(a) + Encode(b)
    decreases |b|
  {
    if b == [] {
      assert a + b == a;
    } else {
      var n := |b| - 1;
      assert (a + b)[..|a + b| - 1] == a + b[..n];
      EncodeConcat(a, b[..n]);
    }
  }

  /** A short text stays; a longer one keeps the longest beginning that leaves room for the
      ellipsis.  The result is well-formed, and stays in the limit unless a text is cut for a limit
      that is smaller than the ellipsis. */
  method TruncateUtf8Safe(ghost s: seq<Scalar>, text: seq<Byte>, maxLen: nat) returns (r: seq<Byte>)
    requires text == Encode(s)
    ensures |text| <= maxLen ==> r == text
    ensures |text| > maxLen ==> r == Encode(s[..Fit(s, Room(maxLen))] + ELLIPSIS)
    ensures |r| <= maxLen <==> |text| <= maxLen || maxLen >= 3
    ensures |text| > maxLen >= 3 ==> maxLen - 3 <= |r|
  {
    hide Encode, Fit, Start, IsCharBoundary;
    EllipsisBytes();
    if |text| <= maxLen {
      return text;
    }
    var target := Room(maxLen);
    ghost var kept := Fit(s, target);
    FitIsTight(s, target);
    KeptIsBoundary(s, target);
    EncodeConcat(s[..kept], ELLIPSIS);
    if maxLen < 4 {
      NothingFits(s);
      return [0x2E, 0x2E, 0x2E];
    }
    var end := target;
    while end > 0 && !IsCharBoundary(text, end)
      invariant Start(s, kept) <= end <= target
    {
      end := end - 1;
    }
    LastBoundary(s, target, end);
    r := text[..end] + [0x2E, 0x2E, 0x2E];
  }

  lemma NothingFits(s: seq<Scalar>)
    ensures Fit(s, 0) == 0 && Encode(s[..0]) == []
  {
    FitExact(s, 0);
    StartsGrow(s, 0, Fit(s, 0));
  }

  /** The cut is at the last boundary in the whole limit, as the comment on the function has
      it, exactly if no character starts in the bytes that the ellipsis takes. */
  lemma CutAtLimitExactly(s: seq<Scalar>, maxLen: nat)
    requires |Encode(s)| > maxLen
    ensures Fit(s, Room(maxLen)) == Fit(s, maxLen)
       <==> forall k | 0 <= k < |s| :: !(Room(maxLen) < Start(s, k) <= maxLen)
  {
    FitIsTight(s, maxLen);
    FitExact(s, Room(maxLen));
    FitExact(s, maxLen);
    hide Fit, Start;
    var kept := Fit(s, maxLen);
    if forall k | 0 <= k < |s| :: !(Room(maxLen) < Start(s, k) <= maxLen) {
      assert Start(s, kept) <= Room(maxLen);
    }
    if k :| 0 <= k < |s| && Room(maxLen) < Start(s, k) <= maxLen {
      StartsGrow(s, Fit(s, Room(maxLen)), Fit(s, maxLen));
      assert k <= kept;
      if Fit(s, Room(maxLen)) == kept {
        StartsGrow(s, k, kept);
      }
    }
  }

  /** Six ASCII characters in a limit of five: five would be within the limit, two are kept. */
  lemma CutBeforeLimit()
    ensures var s: seq<Scalar> := [0x61, 0x62, 0x63, 0x64, 0x65, 0x66];
      |Encode(s)| == 6 && Fit(s, 5) == 5 && Fit(s, Room(5)) == 2
  {
    var s: seq<Scalar> := [0x61, 0x62, 0x63, 0x64, 0x65, 0x66];
    AsciiFit(s, 5);
    AsciiFit(s, 2);
    AsciiExact(s, 6);
    assert s[..6] == s;
  }

  lemma AsciiFit(s: seq<Scalar>, budget: nat)
    requires budget <= |s| && forall k | 0 <= k < |s| :: s[k] < 0x80
    ensures Fit(s, budget) == budget
  {
    FitExact(s, budget);
    AsciiExact(s, budget);
    AsciiExact(s, Fit(s, budget));
  }

  lemma KeptIsBoundary(s: seq<Scalar>, target: nat)
    ensures Start(s, Fit(s, target)) <= |Encode(s)|
    ensures IsCharBoundary(Encode(s), Start(s, Fit(s, target)))
  {
    EncodePrefix(s, Fit(s, target), |s|);
    assert s[..|s|] == s;
    hide Encode, Fit, IsCharBoundary;
    BoundaryExact(s, Start(s, Fit(s, target)));
  }

  /** There is no boundary between the longest beginning that fits and the target. */
  lemma LastBoundary(s: seq<Scalar>, target: nat, end: nat)
    requires Start(s, Fit(s, target)) <= end <= target < |Encode(s)|
    requires end == 0 || IsCharBoundary(Encode(s), end)
    ensures end == Start(s, Fit(s, target)) && Encode(s)[..end] == Encode(s[..Fit(s, target)])
  {
    EncodePrefix(s, Fit(s, target), |s|);
    assert s[..|s|] == s;
    hide Encode, Fit;
    var kept := Fit(s, target);
    BoundaryExact(s, end);
    var k :| 0 <= k <= |s| && Start(s, k) == end;
    FitExact(s, target);
    StartsGrow(s, k, kept);
  }

  lemma EllipsisBytes()
    ensures Encode(ELLIPSIS) == [0x2E, 0x2E, 0x2E]
  {
    var s := ELLIPSIS;
    assert s[..1] == [0x2E] && s[..2] == [0x2E, 0x2E] && s[..0] == [] && s[..3] == s;
    EncodeNext(s, 0);
    EncodeNext(s, 1);
    EncodeNext(s, 2);
  }

  // ---------------------------------------------------------------------------
  // Truncation of logged inference content
  // ---------------------------------------------------------------------------

  /** The text that is left, and whether the marker follows it. */
  datatype Content = Whole(text: seq<Scalar>) | Cut(text: seq<Scalar>)

  /** How many characters from the `k`-th on start at or before byte `maxChars`. */
  function StartsWithin(s: seq<Scalar>, maxChars: nat, k: nat): nat
    requires k <= |s|
    decreases |s| - k
  {
    if k < |s| && Start(s, k) <= maxChars then 1 + StartsWithin(s, maxChars, k + 1) else 0
  }

  /** The guard counts characters, the cut compares byte positions with the same number. */
  function TruncateContent(s: seq<Scalar>, maxChars: nat): Content {
    if |s| <= maxChars then Whole(s)
    else
      var n := StartsWithin(s, maxChars, 0);
      StartsWithinBounded(s, maxChars, 0);
      Cut(if n == 0 then [] else s[..n - 1])
  }

  lemma {:induction false} StartsWithinBounded(s: seq<Scalar>, maxChars: nat, k: nat)
    requires k <= |s|
    ensures k + StartsWithin(s, maxChars, k) <= |s|
    decreases |s| - k
  {
    if k < |s| && Start(s, k) <= maxChars {
      StartsWithinBounded(s, maxChars, k + 1);
    }
  }

  lemma {:induction false} StartsWithinExact(s: seq<Scalar>, maxChars: nat, k: nat)
    requires k <= Fit(s, maxChars) < |s|
    ensures k + StartsWithin(s, maxChars, k) == Fit(s, maxChars) + 1
    decreases |s| - k
  {
    FitExact(s, maxChars);
    StartsGrow(s, k, Fit(s, maxChars));
    hide Fit, Start;
    if k < Fit(s, maxChars) {
      StartsWithinExact(s, maxChars, k + 1);
    } else {
      assert k + 1 < |s| ==> Start(s, k + 1) > maxChars;
    }
  }

  /** A text of at most `maxChars` characters stays.  What is cut keeps the longest beginning of at
      most `maxChars` bytes; these are exactly `maxChars` characters if and only if they are ASCII. */
  lemma TruncateContentExact(s: seq<Scalar>, maxChars: nat)
    ensures |s| <= maxChars ==> TruncateContent(s, maxChars) == Whole(s)
    ensures |s| > maxChars ==>
      && TruncateContent(s, maxChars) == Cut(s[..Fit(s, maxChars)])
      && Fit(s, maxChars) <= maxChars
      && (Fit(s, maxChars) == maxChars <==> forall j | 0 <= j < maxChars :: s[j] < 0x80)
  {
    if |s| > maxChars {
      CutExact(s, maxChars);
    }
  }

  lemma CutExact(s: seq<Scalar>, maxChars: nat)
    requires |s| > maxChars
    ensures TruncateContent(s, maxChars) == Cut(s[..Fit(s, maxChars)])
    ensures Fit(s, maxChars) <= maxChars < |s|
    ensures Fit(s, maxChars) == maxChars <==> forall j | 0 <= j < maxChars :: s[j] < 0x80
  {
    assert s[..|s|] == s && s[..0] == [];
    StartsGrow(s, 0, |s|);
    FitIsTight(s, maxChars);
    FitExact(s, maxChars);
    StartsGrow(s, 0, Fit(s, maxChars));
    StartsWithinExact(s, maxChars, 0);
    AsciiExact(s, maxChars);
    if Start(s, maxChars) == maxChars {
      assert maxChars <= Fit(s, maxChars);
    } else {
      StartsGrow(s, 0, maxChars);
    }
  }

  lemma {:induction false} AsciiExact(s: seq<Scalar>, k: nat)
    requires k <= |s|
    ensures Start(s, k) == k <==> forall j | 0 <= j < k :: s[j] < 0x80
    decreases k
  {
    assert s[..0] == [];
    if k > 0 {
      AsciiExact(s, k - 1);
      EncodeNext(s, k - 1);
      StartsGrow(s, 0, k - 1);
    }
  }
}
