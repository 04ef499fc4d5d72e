/**
 The line-ending step of the About dialog's document loader: a text whose
 lines end in a bare line feed and that holds no carriage return at all has
 every line feed rewritten to a carriage return + line feed pair; any other
 text is kept as it is.
 */
module LineEndings {

  const CR: char := '\r'
  const LF: char := '\n'

  /** .NET's `string.IndexOf(char)`: the first index of `c` in `s`, or -1. */
  function IndexOf(s: string, c: char): (r: int)
    ensures r == -1 <==> c !in s
    ensures r != -1 ==> 0 <= r < |s| && s[r] == c && c !in s[..r]
  {
    if |s| == 0 then -1
    else if s[0] == c then 0
    else
      var k := IndexOf(s[1..], c);
      if k == -1 then -1 else (assert s[..k + 1] == [s[0]] + s[1..][..k]; k + 1)
  }

  /** `s.Replace("\n", "\r\n")`: every line feed becomes a CR LF pair. */
  function ReplaceLf(s: string): string
  {
    if |s| == 0 then ""
    else (if s[0] == LF then [CR, LF] else [s[0]]) + ReplaceLf(s[1..])
  }

  /**
   `ReplaceLf` keeps every line feed, adds one carriage return per line feed,
   and so grows the text by the number of line feeds.
   */
  lemma {:induction false} ReplaceLfCounts(s: string)
    ensures |ReplaceLf(s)| == |s| + multiset(s)[LF]
    ensures multiset(ReplaceLf(s))[LF] == multiset(s)[LF]
    ensures multiset(ReplaceLf(s))[CR] == multiset(s)[CR] + multiset(s)[LF]
  {
    if |s| > 0 {
      ReplaceLfCounts(s[1..]);
      assert s == [s[0]] + s[1..];
      var head := if s[0] == LF then [CR, LF] else [s[0]];
      assert multiset(ReplaceLf(s)) == multiset(head) + multiset(ReplaceLf(s[1..]));
    }
  }

  /** Every line feed in `s` has a carriage return immediately before it. */
  ghost predicate NoBareLf(s: string)
  {
    forall i :: 0 <= i < |s| && s[i] == LF ==> 0 < i && s[i - 1] == CR
  }

  /** Every carriage return in `s` has a line feed immediately after it. */
  ghost predicate CrOnlyBeforeLf(s: string)
  {
    forall i :: 0 <= i < |s| && s[i] == CR ==> i + 1 < |s| && s[i + 1] == LF
  }

  /** `s` with every carriage return dropped: the inverse of `ReplaceLf` on CR-free text. */
  function RemoveCr(s: string): (r: string)
    ensures CR !in r
    ensures |r| == |s| - multiset(s)[CR]
  {
    if |s| == 0 then ""
    else
      assert s == [s[0]] + s[1..];
      (if s[0] == CR then "" else [s[0]]) + RemoveCr(s[1..])
  }

  /** The conditional rewrite of AboutDialog.LoadDocumentForTab. */
  function Normalize(text: string): string
  {
    if IndexOf(text, LF) != -1 && IndexOf(text, CR) == -1 then ReplaceLf(text) else text
  }

  /** After `ReplaceLf` no line feed stands without its carriage return. */
  lemma {:induction false} ReplaceLfNoBareLf(s: string)
    ensures NoBareLf(ReplaceLf(s))
  {
    if |s| > 0 {
      ReplaceLfNoBareLf(s[1..]);
      var head := if s[0] == LF then [CR, LF] else [s[0]];
      var tail := ReplaceLf(s[1..]);
      var r := ReplaceLf(s);
      assert r == head + tail;
      forall i | 0 <= i < |r| && r[i] == LF
        ensures 0 < i && r[i - 1] == CR
      {
        if i >= |head| {
          assert tail[i - |head|] == LF;
          assert i - |head| > 0;
          assert r[i - 1] == tail[i - 1 - |head|];
        }
      }
    }
  }

  /** On text without carriage returns, the only carriage returns `ReplaceLf` writes sit before a line feed. */
  lemma {:induction false} ReplaceLfCrOnlyBeforeLf(s: string)
    requires CR !in s
    ensures CrOnlyBeforeLf(ReplaceLf(s))
  {
    if |s| > 0 {
      assert CR !in s[1..] by { assert forall k :: 0 <= k < |s| - 1 ==> s[1..][k] == s[k + 1]; }
      ReplaceLfCrOnlyBeforeLf(s[1..]);
      var head := if s[0] == LF then [CR, LF] else [s[0]];
      var tail := ReplaceLf(s[1..]);
      var r := ReplaceLf(s);
      assert r == head + tail;
      forall i | 0 <= i < |r| && r[i] == CR
        ensures i + 1 < |r| && r[i + 1] == LF
      {
        if i >= |head| {
          assert tail[i - |head|] == CR;
          assert r[i + 1] == tail[i + 1 - |head|];
        } else {
          assert s[0] != CR;
        }
      }
    }
  }

  /** Dropping the carriage returns again gives back the CR-free original. */
  lemma {:induction false} RemoveCrUndoesReplaceLf(s: string)
    requires CR !in s
    ensures RemoveCr(ReplaceLf(s)) == s
  {
    if |s| > 0 {
      var t := s[1..];
      assert CR !in t by { assert forall k :: 0 <= k < |t| ==> t[k] == s[k + 1]; }
      RemoveCrUndoesReplaceLf(t);
      var head := if s[0] == LF then [CR, LF] else [s[0]];
      var tail := ReplaceLf(t);
      assert ReplaceLf(s) == head + tail;
      RemoveCrAppend(head, tail);
      RemoveCrOfPiece(s[0]);
      assert s == [s[0]] + t;
    }
  }

  /** The piece `ReplaceLf` writes for one character loses only its carriage return. */
  lemma RemoveCrOfPiece(c: char)
    requires c != CR
    ensures RemoveCr(if c == LF then [CR, LF] else [c]) == [c]
  {
    if c == LF {
      assert [CR, LF][1..] == [LF];
      assert [LF][1..] == [];
    } else {
      assert [c][1..] == [];
    }
  }

  /** Dropping carriage returns works piece by piece. */
  lemma {:induction false} RemoveCrAppend(a: string, b: string)
    ensures RemoveCr(a + b) == RemoveCr(a) + RemoveCr(b)
  {
    if |a| > 0 {
      RemoveCrAppend(a[1..], b);
      assert (a + b)[1..] == a[1..] + b;
    } else {
      assert a + b == b;
    }
  }

  /**
   Text with at least one line feed and no carriage return is rewritten: the
   result is the input with a carriage return inserted exactly before each line
   feed, and it grows by the number of line feeds.
   */
  lemma NormalizeRewritesBareLf(text: string)
    requires LF in text && CR !in text
    ensures Normalize(text) == ReplaceLf(text)
    ensures NoBareLf(Normalize(text)) && CrOnlyBeforeLf(Normalize(text))
    ensures RemoveCr(Normalize(text)) == text
    ensures |Normalize(text)| == |text| + multiset(text)[LF]
  {
    ReplaceLfCounts(text);
    ReplaceLfNoBareLf(text);
    ReplaceLfCrOnlyBeforeLf(text);
    RemoveCrUndoesReplaceLf(text);
  }

  /** Text holding any carriage return, or no line feed, is left exactly as it is. */
  lemma NormalizeKeeps(text: string)
    requires CR in text || LF !in text
    ensures Normalize(text) == text
  {
  }

  /** A rewritten text holds a carriage return, so a second pass changes nothing. */
  lemma NormalizeIdempotent(text: string)
    ensures Normalize(Normalize(text)) == Normalize(text)
  {
    var r := Normalize(text);
    if LF in text && CR !in text {
      ReplaceLfCounts(text);
      assert multiset(text)[LF] > 0;
      assert multiset(r)[CR] > 0;
      assert CR in r;
    }
    NormalizeKeeps(r);
  }

  /** Normalisation never removes a character: dropping carriage returns from both sides gives the same text. */
  lemma NormalizeOnlyAddsCr(text: string)
    ensures RemoveCr(Normalize(text)) == RemoveCr(text)
  {
    if LF in text && CR !in text {
      RemoveCrUndoesReplaceLf(text);
      RemoveCrOfCrFree(text);
    }
  }

  lemma {:induction false} RemoveCrOfCrFree(s: string)
    requires CR !in s
    ensures RemoveCr(s) == s
  {
    if |s| > 0 {
      assert CR !in s[1..] by { assert forall k :: 0 <= k < |s| - 1 ==> s[1..][k] == s[k + 1]; }
      RemoveCrOfCrFree(s[1..]);
      assert s == [s[0]] + s[1..];
    }
  }

  /**
   A mixed text, one that already has a CR LF pair and also a bare line feed,
   keeps its bare line feed.
   */
  lemma MixedTextKeepsBareLf()
    ensures var mixed := "a\r\nb\nc"; Normalize(mixed) == mixed && !NoBareLf(Normalize(mixed))
  {
    var mixed := "a\r\nb\nc";
    assert mixed[1] == CR;
    NormalizeKeeps(mixed);
    assert mixed[4] == LF && mixed[3] != CR;
  }
}
