/** The naming-convention matcher `compare_sam_to_cn`
    (ADdump-parse.py:73-89). */
module Naming {
  import opened Wrappers
  import opened Ascii

  /** The two format names the matcher recognises; any other string in the
      format list is skipped. */
  const FirstDotLast := "first.last"
  const InitialLast := "fLast"

  predicate Recognised(fmt: string) {
    fmt == FirstDotLast || fmt == InitialLast
  }

  function Last<T>(s: seq<T>): T
    requires s != []
  {
    s[|s| - 1]
  }

  /** The short name format `fmt` expects for a canonical name split into
      `parts`, or None when the format is unknown or there are fewer than two
      tokens (the `continue` branch). */
  function ExpectedSam(fmt: string, parts: seq<string>): (r: Option<string>)
    requires AllWords(parts)
    ensures r.Some? <==> Recognised(fmt) && |parts| >= 2
    ensures r.Some? ==> IsLower(r.value)
    ensures r.Some? && fmt == FirstDotLast ==>
      && |r.value| == |parts[0]| + 1 + |Last(parts)|
      && r.value[..|parts[0]|] == Lower(parts[0])
      && r.value[|parts[0]|] == '.'
      && r.value[|parts[0]| + 1..] == Lower(Last(parts))
    ensures r.Some? && fmt == InitialLast ==>
      && |r.value| == 1 + |Last(parts)|
      && r.value[0] == LowerChar(parts[0][0])
      && r.value[1..] == Lower(Last(parts))
  {
    if fmt == FirstDotLast && |parts| >= 2 then
      var v := Lower(parts[0]) + "." + Lower(Last(parts));
      assert v[..|parts[0]|] == Lower(parts[0]);
      assert v[|parts[0]| + 1..] == Lower(Last(parts));
      Some(v)
    else if fmt == InitialLast && |parts| >= 2 then
      var v := Lower([parts[0][0]] + Last(parts));
      LowerConcat([parts[0][0]], Last(parts));
      assert v[1..] == Lower(Last(parts));
      Some(v)
    else
      None
  }

  /** The loop of `compare_sam_to_cn`: try the formats in order and stop at
      the first whose expected name equals the lowered short name. It is true
      exactly when SOME format in the list yields that name. */
  function FirstMatch(lowerSam: string, parts: seq<string>, formats: seq<string>): (r: bool)
    requires AllWords(parts)
    ensures r <==> exists i :: 0 <= i < |formats| && ExpectedSam(formats[i], parts) == Some(lowerSam)
    decreases |formats|
  {
    if formats == [] then false
    else
      var rest := FirstMatch(lowerSam, parts, formats[1..]);
      assert forall i :: 1 <= i < |formats| ==> formats[i] == formats[1..][i - 1];
      match ExpectedSam(formats[0], parts)
      case Some(expected) => if lowerSam == expected then true else rest
      case None => rest
  }

  /** `compare_sam_to_cn(sam_name, cn, formats)`. */
  function CompareSamToCn(sam: string, cn: string, formats: seq<string>): (r: bool)
    ensures r <==> exists i :: 0 <= i < |formats| && ExpectedSam(formats[i], Split(cn)) == Some(Lower(sam))
  {
    FirstMatch(Lower(sam), Split(cn), formats)
  }

  /** A match needs at least two tokens in the canonical name and at least
      one recognised format in the list; in particular an empty format list
      never matches. */
  lemma MatchNeedsTokensAndFormat(sam: string, cn: string, formats: seq<string>)
    ensures CompareSamToCn(sam, cn, formats) ==>
      |Split(cn)| >= 2 && exists i :: 0 <= i < |formats| && Recognised(formats[i])
    ensures formats == [] ==> !CompareSamToCn(sam, cn, formats)
  {
  }

  /** With the single format 'first.last' the short name must be the first
      and last tokens, lowered, joined by a dot. */
  lemma FirstDotLastMatch(sam: string, cn: string)
    ensures var parts := Split(cn);
      CompareSamToCn(sam, cn, [FirstDotLast]) <==>
        |parts| >= 2 && Lower(sam) == Lower(parts[0]) + "." + Lower(Last(parts))
  {
  }

  /** With the single format 'fLast' the short name must be the initial of
      the first token followed by the last token, all lowered. */
  lemma InitialLastMatch(sam: string, cn: string)
    ensures var parts := Split(cn);
      CompareSamToCn(sam, cn, [InitialLast]) <==>
        |parts| >= 2 && Lower(sam) == [LowerChar(parts[0][0])] + Lower(Last(parts))
  {
    var parts := Split(cn);
    if |parts| >= 2 {
      LowerConcat([parts[0][0]], Last(parts));
    }
  }

  /** Only the first and last tokens of the canonical name are consulted. */
  lemma ExpectedSamFirstAndLast(fmt: string, parts: seq<string>)
    requires AllWords(parts) && |parts| >= 2
    ensures ExpectedSam(fmt, parts) == ExpectedSam(fmt, [parts[0], Last(parts)])
  {
  }

  /** Middle tokens of the canonical name never change the verdict. */
  lemma MiddleTokensIrrelevant(sam: string, first: string, middle: seq<string>, last: string, formats: seq<string>)
    requires IsWord(first) && IsWord(last) && AllWords(middle)
    ensures CompareSamToCn(sam, JoinSpace([first] + middle + [last]), formats)
        == CompareSamToCn(sam, JoinSpace([first, last]), formats)
  {
    var long := [first] + middle + [last];
    SplitJoin(long);
    SplitJoin([first, last]);
    assert long[0] == first && Last(long) == last;
    forall fmt {
      ExpectedSamFirstAndLast(fmt, long);
    }
  }

  /** The verdict depends only on which formats are listed: neither their
      order nor repetitions matter. */
  lemma FormatOrderIrrelevant(sam: string, cn: string, formats: seq<string>, formats': seq<string>)
    requires forall f :: f in formats <==> f in formats'
    ensures CompareSamToCn(sam, cn, formats) == CompareSamToCn(sam, cn, formats')
  {
    var parts, lsam := Split(cn), Lower(sam);
    if CompareSamToCn(sam, cn, formats) {
      var i :| 0 <= i < |formats| && ExpectedSam(formats[i], parts) == Some(lsam);
      assert formats[i] in formats';
      var j :| 0 <= j < |formats'| && formats'[j] == formats[i];
      assert ExpectedSam(formats'[j], parts) == Some(lsam);
    }
    if CompareSamToCn(sam, cn, formats') {
      var j :| 0 <= j < |formats'| && ExpectedSam(formats'[j], parts) == Some(lsam);
      assert formats'[j] in formats;
      var i :| 0 <= i < |formats| && formats[i] == formats'[j];
      assert ExpectedSam(formats[i], parts) == Some(lsam);
    }
  }

  /** Adding formats, before or after, never turns a match into a mismatch. */
  lemma MoreFormatsKeepMatch(sam: string, cn: string, formats: seq<string>, extra: seq<string>)
    requires CompareSamToCn(sam, cn, formats)
    ensures CompareSamToCn(sam, cn, formats + extra)
    ensures CompareSamToCn(sam, cn, extra + formats)
  {
    var parts, lsam := Split(cn), Lower(sam);
    var i :| 0 <= i < |formats| && ExpectedSam(formats[i], parts) == Some(lsam);
    assert (formats + extra)[i] == formats[i];
    assert (extra + formats)[|extra| + i] == formats[i];
  }

  /** The comparison is case-insensitive in the short name. */
  lemma LowerSamSameVerdict(sam: string, cn: string, formats: seq<string>)
    ensures CompareSamToCn(Lower(sam), cn, formats) == CompareSamToCn(sam, cn, formats)
  {
    LowerIdempotent(sam);
  }

  /** The name 'first.last' derives from a two-word canonical name is
      accepted, whatever the case of the canonical name. */
  lemma DerivedFirstDotLastAccepted(first: string, last: string)
    requires IsWord(first) && IsWord(last)
    ensures CompareSamToCn(first + "." + last, first + " " + last, [FirstDotLast])
  {
    var sam, cn := first + "." + last, first + " " + last;
    SplitTwoWords(first, last);
    FirstDotLastMatch(sam, cn);
    LowerDotJoin(first, last);
  }

  lemma LowerDotJoin(first: string, last: string)
    ensures Lower(first + "." + last) == Lower(first) + "." + Lower(last)
  {
    calc {
      Lower(first + "." + last);
    == { assert first + "." + last == first + ("." + last); }
      Lower(first + ("." + last));
    == { LowerConcat(first, "." + last); }
      Lower(first) + Lower("." + last);
    == { LowerConcat(".", last); }
      Lower(first) + (Lower(".") + Lower(last));
    == { assert Lower(".") == "."; }
      Lower(first) + "." + Lower(last);
    }
  }

  /** The name 'fLast' derives from a two-word canonical name is accepted,
      whatever the case of the canonical name. */
  lemma DerivedInitialLastAccepted(first: string, last: string)
    requires IsWord(first) && IsWord(last)
    ensures CompareSamToCn([first[0]] + last, first + " " + last, [InitialLast])
  {
    var sam, cn := [first[0]] + last, first + " " + last;
    SplitTwoWords(first, last);
    InitialLastMatch(sam, cn);
    LowerConcat([first[0]], last);
    assert Lower([first[0]]) == [LowerChar(first[0])];
  }

  /** Splitting "first last" gives the two tokens. */
  lemma SplitTwoWords(first: string, last: string)
    requires IsWord(first) && IsWord(last)
    ensures Split(first + " " + last) == [first, last]
  {
    SplitJoin([first, last]);
    assert JoinSpace([first, last]) == first + " " + JoinSpace([last]);
  }

  /** The worked example: "John Smith" with short name "jsmith" fails
      'first.last', which expects "john.smith". */
  lemma JohnSmithFailsFirstDotLast()
    ensures !CompareSamToCn("jsmith", "John Smith", [FirstDotLast])
  {
    SplitJohnSmith();
    FirstDotLastMatch("jsmith", "John Smith");
    assert |Lower("jsmith")| == 6;
    assert |Lower("John") + "." + Lower("Smith")| == 10;
  }

  /** "John Smith" with short name "jsmith" passes 'fLast'. */
  lemma JohnSmithPassesInitialLast()
    ensures CompareSamToCn("jsmith", "John Smith", [InitialLast])
  {
    SplitJohnSmith();
    InitialLastOfJohnSmith(Split("John Smith"));
    LowerJsmith();
    InitialLastMatch("jsmith", "John Smith");
  }

  lemma SplitJohnSmith()
    ensures Split("John Smith") == ["John", "Smith"]
  {
    SplitTwoWords("John", "Smith");
    assert "John" + " " + "Smith" == "John Smith";
  }

  lemma InitialLastOfJohnSmith(parts: seq<string>)
    requires parts == ["John", "Smith"]
    ensures [LowerChar(parts[0][0])] + Lower(Last(parts)) == "jsmith"
  {
    LowerSmith();
    assert LowerChar('J') == 'j';
  }

  lemma LowerJsmith()
    ensures Lower("jsmith") == "jsmith"
  {
    LowerOfLower("jsmith");
  }

  lemma LowerSmith()
    ensures Lower("Smith") == "smith"
  {
    LowerOfLower("mith");
    LowerConcat("S", "mith");
    assert "S" + "mith" == "Smith";
  }

  /** "Jane Doe" with short name "j.doe" fails 'first.last', which expects
      "jane.doe". */
  lemma JaneDoeFailsFirstDotLast()
    ensures !CompareSamToCn("j.doe", "Jane Doe", [FirstDotLast])
  {
    SplitTwoWords("Jane", "Doe");
    assert "Jane" + " " + "Doe" == "Jane Doe";
    FirstDotLastMatch("j.doe", "Jane Doe");
    assert |Lower("j.doe")| == 5;
    assert |Lower("Jane") + "." + Lower("Doe")| == 8;
  }

}
