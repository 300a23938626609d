/** String helpers of the dashboard: `separatePascalCase`, the empty-input
    branch of `toStandardDateFormat`, and the string built-ins the table and the
    navigation rely on (`toLowerCase`, `trim`, `includes`). */
module Utils {
  import opened Wrappers

  predicate IsLower(c: char) { 'a' <= c <= 'z' }
  predicate IsUpper(c: char) { 'A' <= c <= 'Z' }

  // ---------------------------------------------------------------------------
  // separatePascalCase: text.replace(/([a-z])([A-Z])/g, "$1 $2")
  // ---------------------------------------------------------------------------

  /** A lower-case letter directly followed by an upper-case one at position `i`. */
  predicate AdjacentAt(s: string, i: int) {
    0 <= i && i + 1 < |s| && IsLower(s[i]) && IsUpper(s[i + 1])
  }

  predicate HasAdjacency(s: string) {
    exists i :: 0 <= i < |s| && AdjacentAt(s, i)
  }

  /** Number of lower→upper adjacencies in `s`. */
  function CountAdjacencies(s: string): nat {
    if |s| < 2 then 0
    else (if AdjacentAt(s, 0) then 1 else 0) + CountAdjacencies(s[1..])
  }

  /** The global regular-expression replacement, scanning left to right: a match
      consumes the two letters it joins and the scan resumes after them. */
  function SeparatePascalCase(s: string): string {
    if |s| < 2 then s
    else if IsLower(s[0]) && IsUpper(s[1]) then [s[0], ' ', s[1]] + SeparatePascalCase(s[2..])
    else [s[0]] + SeparatePascalCase(s[1..])
  }

  /** Reference reading of the transform: every character is copied, and a single
      space follows each character that starts an adjacency. */
  function SpaceEveryAdjacency(s: string): string {
    if |s| == 0 then []
    else [s[0]] + (if AdjacentAt(s, 0) then " " else "") + SpaceEveryAdjacency(s[1..])
  }

  /** The regex scan misses no adjacency: a match ends in an upper-case letter,
      which cannot start the next one, so the scan equals the reference. */
  lemma {:induction false} SeparateSpacesEveryAdjacency(s: string)
    ensures SeparatePascalCase(s) == SpaceEveryAdjacency(s)
    decreases |s|
  {
    if |s| >= 2 {
      if IsLower(s[0]) && IsUpper(s[1]) {
        SeparateSpacesEveryAdjacency(s[2..]);
        var t := s[1..];
        assert !AdjacentAt(t, 0);
        assert t[1..] == s[2..];
        assert SpaceEveryAdjacency(t) == [s[1]] + SpaceEveryAdjacency(s[2..]);
      } else {
        SeparateSpacesEveryAdjacency(s[1..]);
      }
    }
  }

  /** Exactly one character is added per adjacency. */
  lemma {:induction false} SeparateLength(s: string)
    ensures |SeparatePascalCase(s)| == |s| + CountAdjacencies(s)
    decreases |s|
  {
    SeparateSpacesEveryAdjacency(s);
    ReferenceLength(s);
  }

  lemma {:induction false} ReferenceLength(s: string)
    ensures |SpaceEveryAdjacency(s)| == |s| + CountAdjacencies(s)
    decreases |s|
  {
    if |s| > 0 {
      ReferenceLength(s[1..]);
      if |s| < 2 {
        assert !AdjacentAt(s, 0);
        assert CountAdjacencies(s[1..]) == 0;
      }
    }
  }

  /** A string without a lower→upper adjacency is returned unchanged. */
  lemma {:induction false} SeparateWithoutAdjacency(s: string)
    requires !HasAdjacency(s)
    ensures SeparatePascalCase(s) == s
    decreases |s|
  {
    if |s| >= 2 {
      assert !AdjacentAt(s, 0);
      assert !HasAdjacency(s[1..]) by {
        forall i | AdjacentAt(s[1..], i) ensures AdjacentAt(s, i + 1) { }
      }
      SeparateWithoutAdjacency(s[1..]);
    }
  }

  /** The output contains no adjacency: an inserted space separates each pair,
      and spaces are neither lower nor upper case. */
  lemma {:induction false} SeparateLeavesNoAdjacency(s: string)
    ensures !HasAdjacency(SeparatePascalCase(s))
    decreases |s|
  {
    if |s| >= 2 {
      var r := SeparatePascalCase(s);
      if IsLower(s[0]) && IsUpper(s[1]) {
        var tail := SeparatePascalCase(s[2..]);
        SeparateLeavesNoAdjacency(s[2..]);
        assert r == [s[0], ' ', s[1]] + tail;
        forall i | 3 <= i < |r| ensures !AdjacentAt(r, i) {
          assert !AdjacentAt(tail, i - 3);
        }
      } else {
        var tail := SeparatePascalCase(s[1..]);
        SeparateLeavesNoAdjacency(s[1..]);
        SeparateKeepsFirst(s[1..]);
        assert r == [s[0]] + tail;
        forall i | 1 <= i < |r| ensures !AdjacentAt(r, i) {
          assert !AdjacentAt(tail, i - 1);
        }
      }
    }
  }

  /** The transform never changes the first character. */
  lemma SeparateKeepsFirst(s: string)
    requires |s| > 0
    ensures |SeparatePascalCase(s)| > 0 && SeparatePascalCase(s)[0] == s[0]
  {
  }

  /** Applying the transform twice is the same as applying it once. */
  lemma SeparateIdempotent(s: string)
    ensures SeparatePascalCase(SeparatePascalCase(s)) == SeparatePascalCase(s)
  {
    SeparateLeavesNoAdjacency(s);
    SeparateWithoutAdjacency(SeparatePascalCase(s));
  }

  /** Removes a space standing between a lower-case and an upper-case letter. */
  function JoinAdjacencies(t: string): string {
    if |t| >= 3 && IsLower(t[0]) && t[1] == ' ' && IsUpper(t[2]) then [t[0]] + JoinAdjacencies(t[2..])
    else if |t| == 0 then []
    else [t[0]] + JoinAdjacencies(t[1..])
  }

  /** "a B": a space the transform could have inserted. */
  predicate HasSpacedPair(s: string) {
    exists i :: 0 <= i && i + 2 < |s| && IsLower(s[i]) && s[i + 1] == ' ' && IsUpper(s[i + 2])
  }

  /** Removing the inserted spaces recovers the input, for every input that did
      not already hold a lower-case letter, a space and an upper-case letter in a row. */
  lemma {:induction false} JoinUndoesSeparate(s: string)
    requires !HasSpacedPair(s)
    ensures JoinAdjacencies(SeparatePascalCase(s)) == s
    decreases |s|
  {
    if |s| >= 2 {
      if IsLower(s[0]) && IsUpper(s[1]) {
        NoSpacedPairInSuffix(s, 2);
        JoinUndoesSeparate(s[2..]);
        var r := SeparatePascalCase(s);
        assert r[2..] == [s[1]] + SeparatePascalCase(s[2..]);
        JoinFirstUpper(s[1], SeparatePascalCase(s[2..]));
      } else {
        NoSpacedPairInSuffix(s, 1);
        JoinUndoesSeparate(s[1..]);
        SeparateKeepsFirst(s[1..]);
        if |s| >= 3 && s[1] == ' ' {
          SeparateSpaceHead(s[1..]);
          assert !(IsLower(s[0]) && IsUpper(s[2])) by {
            assert 0 + 2 < |s| && s[0 + 1] == ' ';
          }
        }
      }
    }
  }

  lemma NoSpacedPairInSuffix(s: string, n: nat)
    requires n <= |s| && !HasSpacedPair(s)
    ensures !HasSpacedPair(s[n..])
  {
    forall i | 0 <= i && i + 2 < |s[n..]| && IsLower(s[n..][i]) && s[n..][i + 1] == ' '
      ensures !IsUpper(s[n..][i + 2])
    {
      assert s[i + n] == s[n..][i] && s[i + n + 1] == s[n..][i + 1] && s[i + n + 2] == s[n..][i + 2];
    }
  }

  /** An upper-case first letter never starts a removable "a B" triple. */
  lemma JoinFirstUpper(c: char, t: string)
    requires IsUpper(c)
    ensures JoinAdjacencies([c] + t) == [c] + JoinAdjacencies(t)
  {
    assert ([c] + t)[1..] == t;
  }

  /** The transform passes a leading space and the character after it through. */
  lemma SeparateSpaceHead(s: string)
    requires |s| >= 2 && s[0] == ' '
    ensures |SeparatePascalCase(s)| >= 2 && SeparatePascalCase(s)[1] == s[1]
  {
    SeparateKeepsFirst(s[1..]);
  }

  /** The notification title of a wedding request form. */
  lemma SeparateExample()
    ensures SeparatePascalCase("WeddingRequestForm") == "Wedding Request Form"
  {
    ExampleTail();
    ExampleSplit();
    ExampleFirstWord();
    SeparateConcat("WeddingR", "equestF" + "orm");
  }

  lemma ExampleTail()
    ensures SeparatePascalCase("equestF" + "orm") == "equest Form"
  {
    ExampleSecondWord();
    ExampleLastWord();
    SeparateConcat("equestF", "orm");
  }

  lemma ExampleSplit()
    ensures "WeddingR" + ("equestF" + "orm") == "WeddingRequestForm"
    ensures "Wedding R" + "equest Form" == "Wedding Request Form"
  {
  }

  lemma ExampleFirstWord()
    ensures SeparatePascalCase("WeddingR") == "Wedding R"
  {
    ExampleFirstWordTail();
    SeparateConcat("W", "eddingR");
    assert "W" + "eddingR" == "WeddingR";
    assert "W" + "edding R" == "Wedding R";
  }

  lemma ExampleFirstWordTail()
    ensures SeparatePascalCase("eddingR") == "edding R"
  {
    assert SeparatePascalCase("R") == "R";
    assert "gR"[2..] == "";
    assert SeparatePascalCase("gR") == "g R";
    assert "ngR"[1..] == "gR";
    assert SeparatePascalCase("ngR") == "ng R";
    assert "ingR"[1..] == "ngR";
    assert SeparatePascalCase("ingR") == "ing R";
    assert "dingR"[1..] == "ingR";
    assert SeparatePascalCase("dingR") == "ding R";
    assert "ddingR"[1..] == "dingR";
    assert SeparatePascalCase("ddingR") == "dding R";
    assert "eddingR"[1..] == "ddingR";
  }

  lemma ExampleSecondWord()
    ensures SeparatePascalCase("equestF") == "equest F"
  {
    assert SeparatePascalCase("F") == "F";
    assert "tF"[2..] == "";
    assert SeparatePascalCase("tF") == "t F";
    assert "stF"[1..] == "tF";
    assert SeparatePascalCase("stF") == "st F";
    assert "estF"[1..] == "stF";
    assert SeparatePascalCase("estF") == "est F";
    assert "uestF"[1..] == "estF";
    assert SeparatePascalCase("uestF") == "uest F";
    assert "questF"[1..] == "uestF";
    assert SeparatePascalCase("questF") == "quest F";
    assert "equestF"[1..] == "questF";
  }

  lemma ExampleLastWord()
    ensures SeparatePascalCase("orm") == "orm"
  {
    assert SeparatePascalCase("m") == "m";
    assert "rm"[1..] == "m";
    assert SeparatePascalCase("rm") == "rm";
    assert "orm"[1..] == "rm";
  }


  /** The scan never carries a match across a boundary that follows a
      character which is not lower case, so such pieces transform separately. */
  lemma {:induction false} SeparateConcat(a: string, b: string)
    requires |a| > 0 && !IsLower(a[|a| - 1])
    ensures SeparatePascalCase(a + b) == SeparatePascalCase(a) + SeparatePascalCase(b)
    decreases |a|
  {
    var ab := a + b;
    if |a| == 1 {
      assert ab == [a[0]] + b;
      SeparateAfterNonLower(a[0], b);
    } else if IsLower(a[0]) && IsUpper(a[1]) {
      assert ab[..2] == a[..2] && ab[2..] == a[2..] + b;
      if |a| > 2 {
        SeparateConcat(a[2..], b);
      } else {
        assert a[2..] + b == b;
      }
    } else {
      assert ab[..2] == a[..2] && ab[1..] == a[1..] + b;
      SeparateConcat(a[1..], b);
    }
  }

  /** A character that is not lower case never starts an adjacency. */
  lemma SeparateAfterNonLower(c: char, b: string)
    requires !IsLower(c)
    ensures SeparatePascalCase([c] + b) == [c] + SeparatePascalCase(b)
  {
    assert ([c] + b)[1..] == b;
  }

  // ---------------------------------------------------------------------------
  // toStandardDateFormat
  // ---------------------------------------------------------------------------

  /** `toStandardDateFormat(date, withoutTime)`: the calendar formatting is
      supplied by `format` (the date library is not modelled); an absent or empty
      date yields the empty string without consulting it. */
  function ToStandardDateFormat(date: Option<string>, withoutTime: bool,
                                format: (string, bool) -> string): (r: string)
    ensures date == None || date == Some("") ==> r == ""
    ensures date.Some? && date.value != "" ==> r == format(date.value, withoutTime)
  {
    match date
    case None => ""
    case Some(d) => if d == "" then "" else format(d, withoutTime)
  }

  // ---------------------------------------------------------------------------
  // String built-ins
  // ---------------------------------------------------------------------------

  function LowerChar(c: char): char {
    if IsUpper(c) then (c as int + 32) as char else c
  }

  /** `toLowerCase()` over ASCII letters. */
  function ToLower(s: string): (r: string)
    ensures |r| == |s|
    ensures forall i :: 0 <= i < |s| ==> r[i] == LowerChar(s[i])
    ensures forall i :: 0 <= i < |r| ==> !IsUpper(r[i])
  {
    if |s| == 0 then [] else [LowerChar(s[0])] + ToLower(s[1..])
  }

  /** The characters `trim()` removes: white space and line terminators. */
  predicate IsJsWhitespace(c: char) {
    c == ' ' || c == '\t' || c == '\n' || c == '\r' || c == '\U{000B}' || c == '\U{000C}'
    || c == '\U{00A0}' || c == '\U{1680}' || ('\U{2000}' <= c <= '\U{200A}')
    || c == '\U{2028}' || c == '\U{2029}' || c == '\U{202F}' || c == '\U{205F}'
    || c == '\U{3000}' || c == '\U{FEFF}'
  }

  predicate AllWhitespace(s: string) {
    forall i :: 0 <= i < |s| ==> IsJsWhitespace(s[i])
  }

  /** `r` occurs in `s` starting at position `i`. */
  predicate OccursAt(s: string, r: string, i: int) {
    0 <= i <= |s| - |r| && s[i..i + |r|] == r
  }

  /** `trim()`: the longest infix of `s` that neither starts nor ends with white space. */
  function Trim(s: string): (r: string)
    ensures |r| <= |s|
    ensures |r| > 0 ==> !IsJsWhitespace(r[0]) && !IsJsWhitespace(r[|r| - 1])
    ensures r == "" <==> AllWhitespace(s)
    decreases |s|
  {
    if |s| > 0 && IsJsWhitespace(s[0]) then
      AllWhitespaceCons(s);
      Trim(s[1..])
    else if |s| > 0 && IsJsWhitespace(s[|s| - 1]) then
      AllWhitespaceSnoc(s);
      Trim(s[..|s| - 1])
    else s
  }

  lemma AllWhitespaceCons(s: string)
    requires |s| > 0 && IsJsWhitespace(s[0])
    ensures AllWhitespace(s) <==> AllWhitespace(s[1..])
  {
    if AllWhitespace(s[1..]) {
      forall i | 1 <= i < |s| ensures IsJsWhitespace(s[i]) {
        assert s[1..][i - 1] == s[i];
      }
    }
  }

  lemma AllWhitespaceSnoc(s: string)
    requires |s| > 0 && IsJsWhitespace(s[|s| - 1])
    ensures AllWhitespace(s) <==> AllWhitespace(s[..|s| - 1])
  {
    if AllWhitespace(s[..|s| - 1]) {
      forall i | 0 <= i < |s| - 1 ensures IsJsWhitespace(s[i]) {
        assert s[..|s| - 1][i] == s[i];
      }
    }
  }

  /** What `trim()` leaves is an infix of `s`, and what it takes away on
      either side is white space only. */
  lemma {:induction false} TrimIsInfix(s: string) returns (i: nat)
    ensures OccursAt(s, Trim(s), i)
    ensures AllWhitespace(s[..i]) && AllWhitespace(s[i + |Trim(s)|..])
    decreases |s|
  {
    if |s| > 0 && IsJsWhitespace(s[0]) {
      var k := TrimIsInfix(s[1..]);
      InfixDropFirst(s, Trim(s[1..]), k);
      i := k + 1;
    } else if |s| > 0 && IsJsWhitespace(s[|s| - 1]) {
      i := TrimIsInfix(s[..|s| - 1]);
      InfixDropLast(s, Trim(s[..|s| - 1]), i);
    } else {
      i := 0;
    }
  }

  lemma InfixDropFirst(s: string, r: string, k: nat)
    requires |s| > 0 && IsJsWhitespace(s[0])
    requires OccursAt(s[1..], r, k) && AllWhitespace(s[1..][..k]) && AllWhitespace(s[1..][k + |r|..])
    ensures OccursAt(s, r, k + 1) && AllWhitespace(s[..k + 1]) && AllWhitespace(s[k + 1 + |r|..])
  {
    forall m | 0 <= m < |r| ensures s[k + 1 + m] == r[m] {
      assert s[1..][k..k + |r|][m] == r[m];
    }
    assert s[k + 1..k + 1 + |r|] == r;
    var pre, post := s[..k + 1], s[k + 1 + |r|..];
    forall j | 0 <= j < |pre| ensures IsJsWhitespace(pre[j]) {
      if j > 0 {
        assert pre[j] == s[1..][..k][j - 1];
      }
    }
    forall j | 0 <= j < |post| ensures IsJsWhitespace(post[j]) {
      assert post[j] == s[1..][k + |r|..][j];
    }
  }

  lemma InfixDropLast(s: string, r: string, i: nat)
    requires |s| > 0 && IsJsWhitespace(s[|s| - 1])
    requires var t := s[..|s| - 1]; OccursAt(t, r, i) && AllWhitespace(t[..i]) && AllWhitespace(t[i + |r|..])
    ensures OccursAt(s, r, i) && AllWhitespace(s[..i]) && AllWhitespace(s[i + |r|..])
  {
    var t := s[..|s| - 1];
    forall m | 0 <= m < |r| ensures s[i + m] == r[m] {
      assert t[i..i + |r|][m] == r[m];
    }
    assert s[i..i + |r|] == r;
    var pre, post := s[..i], s[i + |r|..];
    forall j | 0 <= j < |pre| ensures IsJsWhitespace(pre[j]) {
      assert pre[j] == t[..i][j];
    }
    forall j | 0 <= j < |post| ensures IsJsWhitespace(post[j]) {
      if i + |r| + j < |s| - 1 {
        assert post[j] == t[i + |r|..][j];
      }
    }
  }

  predicate StartsWith(s: string, prefix: string) {
    |prefix| <= |s| && s[..|prefix|] == prefix
  }

  /** `haystack.includes(needle)`: the needle occurs at some position. */
  function Includes(haystack: string, needle: string): (r: bool)
    ensures r <==> exists i :: OccursAt(haystack, needle, i)
    decreases |haystack|
  {
    if StartsWith(haystack, needle) then
      assert OccursAt(haystack, needle, 0);
      true
    else if |haystack| == 0 then false
    else
      IncludesStep(haystack, needle);
      Includes(haystack[1..], needle)
  }

  /** An occurrence away from the first position is an occurrence in the tail. */
  lemma IncludesStep(haystack: string, needle: string)
    requires |haystack| > 0 && !StartsWith(haystack, needle)
    ensures (exists i :: OccursAt(haystack, needle, i)) <==> (exists i :: OccursAt(haystack[1..], needle, i))
  {
    if exists i :: OccursAt(haystack, needle, i) {
      var i :| OccursAt(haystack, needle, i);
      assert i != 0;
      assert OccursAt(haystack[1..], needle, i - 1);
    }
    if exists i :: OccursAt(haystack[1..], needle, i) {
      var i :| OccursAt(haystack[1..], needle, i);
      assert OccursAt(haystack, needle, i + 1);
    }
  }

  /** The empty string occurs in every string. */
  lemma IncludesEmpty(s: string)
    ensures Includes(s, "")
  {
    assert OccursAt(s, "", 0);
  }
}
