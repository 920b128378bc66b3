/**
 * The string helpers `shorten`, `capitalize` and `decapitalize`, as their behaviour is
 * fixed by StringUtilsKtTest.kt.
 */
module StringUtils {
  import opened Wrappers

  /**
   * Stands for the IllegalArgumentException Kotlin's `take`/`takeLast` throw for a
   * negative count. Kotlin's message also names the count; which count is rejected
   * depends on the order of the two calls, so the model keeps one abstract message.
   */
  const NegativeCount: string := "Requested character count is less than zero."

  /** Characters of the input kept before the fill: half of what is kept, rounded down. */
  function HeadLength(desiredLength: int, fillWith: string): int
  {
    (desiredLength - |fillWith|) / 2
  }

  /** Characters of the input kept after the fill: the other half, one more when the kept count is odd. */
  function TailLength(desiredLength: int, fillWith: string): int
  {
    (desiredLength - |fillWith|) - (desiredLength - |fillWith|) / 2
  }

  /**
   * `s.shorten(desiredLength, fillWith)`: a string no longer than `desiredLength` is
   * returned as it is; a longer one keeps its first `HeadLength` and last
   * `TailLength` characters with `fillWith` between them. When `fillWith` alone is
   * longer than `desiredLength` the counts are negative and `take` throws.
   */
  function Shorten(s: string, desiredLength: int, fillWith: string): (r: Result<string>)
    ensures r.Failure? <==> |s| > desiredLength && |fillWith| > desiredLength
    ensures r.Failure? ==> r.error == NegativeCount
    ensures |s| <= desiredLength ==> r == Success(s)
    ensures r.Success? && |s| > desiredLength ==> |r.value| == desiredLength
  {
    if |s| <= desiredLength then Success(s)
    else
      var keep := desiredLength - |fillWith|;
      if keep < 0 then Failure(NegativeCount)
      else
        var head := keep / 2;
        var tail := keep - head;
        Success(s[..head] + fillWith + s[|s| - tail..])
  }

  /**
   * A shortened string is a prefix of the input, then the fill, then a suffix of the
   * input, split by the fixed rule: the head gets half of the kept characters rounded
   * down, the tail the rest, so the tail is never shorter and at most one longer.
   */
  lemma ShortenSplice(s: string, desiredLength: int, fillWith: string)
    requires |s| > desiredLength >= |fillWith|
    ensures var r := Shorten(s, desiredLength, fillWith).value;
      var h, t := HeadLength(desiredLength, fillWith), TailLength(desiredLength, fillWith);
      && 0 <= h <= t <= h + 1
      && h + |fillWith| + t == desiredLength == |r|
      && t - h == (desiredLength - |fillWith|) % 2
      && r[..h] == s[..h]
      && r[h..h + |fillWith|] == fillWith
      && r[h + |fillWith|..] == s[|s| - t..]
  {
    var h, t := HeadLength(desiredLength, fillWith), TailLength(desiredLength, fillWith);
    var r := Shorten(s, desiredLength, fillWith).value;
    assert r == s[..h] + fillWith + s[|s| - t..];
    assert r[..h] == s[..h];
    assert r[h..h + |fillWith|] == fillWith;
    assert r[h + |fillWith|..] == s[|s| - t..];
  }

  /**
   * The head depends on the desired length and the fill alone: two inputs of
   * different lengths (odd and even) that share their first characters are
   * shortened to results that share the same head.
   */
  lemma ShortenHeadIgnoresInputLength(s1: string, s2: string, desiredLength: int, fillWith: string)
    requires |s1| > desiredLength >= |fillWith| && |s2| > desiredLength
    requires s1[..HeadLength(desiredLength, fillWith)] == s2[..HeadLength(desiredLength, fillWith)]
    ensures var h := HeadLength(desiredLength, fillWith) + |fillWith|;
      Shorten(s1, desiredLength, fillWith).value[..h] == Shorten(s2, desiredLength, fillWith).value[..h]
  {
    var h := HeadLength(desiredLength, fillWith);
    ShortenSplice(s1, desiredLength, fillWith);
    ShortenSplice(s2, desiredLength, fillWith);
    var r1, r2 := Shorten(s1, desiredLength, fillWith).value, Shorten(s2, desiredLength, fillWith).value;
    assert r1[..h + |fillWith|] == r1[..h] + r1[h..h + |fillWith|];
    assert r2[..h + |fillWith|] == r2[..h] + r2[h..h + |fillWith|];
  }

  /** Shortening a result again changes nothing: it already has the desired length. */
  lemma ShortenIdempotent(s: string, desiredLength: int, fillWith: string)
    requires Shorten(s, desiredLength, fillWith).Success?
    ensures var r := Shorten(s, desiredLength, fillWith).value;
      Shorten(r, desiredLength, fillWith) == Success(r)
  {
  }

  /** Test case: the documented example. */
  lemma ShortenExampleFromDoc()
    ensures Shorten("very very very very long string", 20, "....") == Success("very ver....g string")
  {
    assert "very ver" + "y very very lon" + "g string" == "very very very very long string";
    ShortenOfSplit("very ver", "y very very lon", "g string", 20, "....");
    assert "very ver" + "...." + "g string" == "very ver....g string";
  }

  /** Test case: odd input length, even desired length. */
  lemma ShortenOddInputEvenLength()
    ensures Shorten("too long string with odd length", 22, "***") == Success("too long ***odd length")
  {
    assert "too long " + "string with " + "odd length" == "too long string with odd length";
    ShortenOfSplit("too long ", "string with ", "odd length", 22, "***");
    assert "too long " + "***" + "odd length" == "too long ***odd length";
  }

  /** Test case: even input length, even desired length. */
  lemma ShortenEvenInputEvenLength()
    ensures Shorten("too long string with even length", 22, "---") == Success("too long ---ven length")
  {
    assert "too long " + "string with e" + "ven length" == "too long string with even length";
    ShortenOfSplit("too long ", "string with e", "ven length", 22, "---");
    assert "too long " + "---" + "ven length" == "too long ---ven length";
  }

  /** Test case: odd input length, odd desired length. */
  lemma ShortenOddInputOddLength()
    ensures Shorten("too long string with odd length", 23, "===") == Success("too long s===odd length")
  {
    assert "too long s" + "tring with " + "odd length" == "too long string with odd length";
    ShortenOfSplit("too long s", "tring with ", "odd length", 23, "===");
    assert "too long s" + "===" + "odd length" == "too long s===odd length";
  }

  /** Test case: even input length, odd desired length. */
  lemma ShortenEvenInputOddLength()
    ensures Shorten("too long string with even length", 23, "###") == Success("too long s###ven length")
  {
    assert "too long s" + "tring with e" + "ven length" == "too long string with even length";
    ShortenOfSplit("too long s", "tring with e", "ven length", 23, "###");
    assert "too long s" + "###" + "ven length" == "too long s###ven length";
  }

  /** Shortening an input split as head, dropped middle and tail, with the lengths of the split rule. */
  lemma ShortenOfSplit(head: string, middle: string, tail: string, desiredLength: int, fillWith: string)
    requires |head| == HeadLength(desiredLength, fillWith) && |tail| == TailLength(desiredLength, fillWith)
    requires desiredLength >= |fillWith| && |middle| > |fillWith|
    ensures Shorten(head + middle + tail, desiredLength, fillWith) == Success(head + fillWith + tail)
  {
    var s := head + middle + tail;
    assert s[..|head|] == head;
    assert s[|s| - |tail|..] == tail;
  }

  const Shortened: string := "<<shortened>>"
  const LambdaDescriptionHead: string := "S3 key of an object containing the function"
  const LambdaDescriptionTail: string := " Conflicts with `filename` and `image_uri`."

  /**
   * The marker the subset script shortens descriptions with: any description made of
   * the asserted head, a dropped middle longer than the marker and the asserted tail
   * becomes head, marker, tail at desired length 99 (43 + 13 + 43 characters). The
   * fixture's full description and the script's desired length are not part of the
   * model; 99 is the length the asserted text itself has.
   */
  lemma ShortenWithMarker(middle: string)
    requires |middle| > |Shortened|
    ensures Shorten(LambdaDescriptionHead + middle + LambdaDescriptionTail, 99, Shortened)
        == Success(LambdaDescriptionHead + Shortened + LambdaDescriptionTail)
  {
    assert |LambdaDescriptionHead| == 43 && |LambdaDescriptionTail| == 43 && |Shortened| == 13;
    ShortenOfSplit(LambdaDescriptionHead, middle, LambdaDescriptionTail, 99, Shortened);
  }

  /** Kotlin's upper-casing of a single character, on the ASCII letters. */
  function UpperChar(c: char): (u: char)
    ensures 'a' <= c <= 'z' ==> 'A' <= u <= 'Z' && u as int == c as int - 32
    ensures !('a' <= c <= 'z') ==> u == c
  {
    if 'a' <= c <= 'z' then (c as int - 32) as char else c
  }

  /** Kotlin's lower-casing of a single character, on the ASCII letters. */
  function LowerChar(c: char): (l: char)
    ensures 'A' <= c <= 'Z' ==> 'a' <= l <= 'z' && l as int == c as int + 32
    ensures !('A' <= c <= 'Z') ==> l == c
  {
    if 'A' <= c <= 'Z' then (c as int + 32) as char else c
  }

  /**
   * The two character mappings are inverse on the letters they change, each is
   * idempotent, and each leaves the letters of the other case alone.
   */
  lemma CaseCharRoundTrip(c: char)
    ensures 'a' <= c <= 'z' ==> LowerChar(UpperChar(c)) == c
    ensures 'A' <= c <= 'Z' ==> UpperChar(LowerChar(c)) == c
    ensures UpperChar(UpperChar(c)) == UpperChar(c) && LowerChar(LowerChar(c)) == LowerChar(c)
    ensures 'A' <= c <= 'Z' ==> UpperChar(c) == c
    ensures 'a' <= c <= 'z' ==> LowerChar(c) == c
  {
  }

  /** `s.capitalize()`: the first character upper-cased, the rest untouched. */
  function Capitalize(s: string): (r: string)
    ensures |r| == |s|
    ensures |s| > 0 ==> r[0] == UpperChar(s[0]) && r[1..] == s[1..]
  {
    if s == [] then s else [UpperChar(s[0])] + s[1..]
  }

  /** `s.decapitalize()`: the first character lower-cased, the rest untouched. */
  function Decapitalize(s: string): (r: string)
    ensures |r| == |s|
    ensures |s| > 0 ==> r[0] == LowerChar(s[0]) && r[1..] == s[1..]
  {
    if s == [] then s else [LowerChar(s[0])] + s[1..]
  }

  /** A string whose first character is not a lower-case letter is left as it is by `capitalize`. */
  lemma CapitalizeKeepsCapitalized(s: string)
    requires s == [] || !('a' <= s[0] <= 'z')
    ensures Capitalize(s) == s
  {
    if s != [] {
      assert [s[0]] + s[1..] == s;
    }
  }

  /** A string whose first character is not an upper-case letter is left as it is by `decapitalize`. */
  lemma DecapitalizeKeepsDecapitalized(s: string)
    requires s == [] || !('A' <= s[0] <= 'Z')
    ensures Decapitalize(s) == s
  {
    if s != [] {
      assert [s[0]] + s[1..] == s;
    }
  }

  /** Each undoes the other on the first letter: they restore whatever case the inverse would give. */
  lemma CaseRoundTrips(s: string)
    ensures Capitalize(Capitalize(s)) == Capitalize(s)
    ensures Decapitalize(Decapitalize(s)) == Decapitalize(s)
    ensures Capitalize(Decapitalize(s)) == Capitalize(s)
    ensures Decapitalize(Capitalize(s)) == Decapitalize(s)
  {
    if s != [] {
      assert Capitalize(s)[1..] == s[1..];
      assert Decapitalize(s)[1..] == s[1..];
    }
  }

  /**
   * The test cases: "word" and "Word" capitalize to "Word", "Word" decapitalizes to
   * "word" (the fourth test repeats the third).
   */
  lemma CaseTestCases()
    ensures Capitalize("word") == "Word"
    ensures Capitalize("Word") == "Word"
    ensures Decapitalize("Word") == "word"
  {
    CapitalizeKeepsCapitalized("Word");
  }
}
