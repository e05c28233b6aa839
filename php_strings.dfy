/** The part of PHP's string library the plugin relies on: `str_replace` with one
    search string and one replacement, on case-sensitive strings. */
module PhpStrings {

  /** `needle` occurs in `s` starting at position `i`. */
  predicate OccursAt(s: string, needle: string, i: nat)
  {
    i + |needle| <= |s| && s[i..i + |needle|] == needle
  }

  /** `needle` occurs somewhere in `s`. */
  ghost predicate Occurs(s: string, needle: string)
  {
    exists i: nat :: OccursAt(s, needle, i)
  }

  /** Every occurrence of `needle` that a left-to-right scan finds, resuming just after
      each match, replaced by `rep`. The text put in is never scanned again, so the
      result may still contain `needle`. */
  function ReplaceAll(s: string, needle: string, rep: string): string
    requires needle != []
    decreases |s|
  {
    if |s| < |needle| then s
    else if s[..|needle|] == needle then rep + ReplaceAll(s[|needle|..], needle, rep)
    else [s[0]] + ReplaceAll(s[1..], needle, rep)
  }

  /** The number of matches the scan of ReplaceAll replaces. */
  function MatchCount(s: string, needle: string): nat
    requires needle != []
    decreases |s|
  {
    if |s| < |needle| then 0
    else if s[..|needle|] == needle then 1 + MatchCount(s[|needle|..], needle)
    else MatchCount(s[1..], needle)
  }

  /** PHP's `str_replace(search, replace, subject)` on three strings. An empty search
      string leaves the subject as it is. The subject comes back unchanged exactly
      when there is nothing to replace or the replacement equals what it replaces. */
  function StrReplace(search: string, replace: string, subject: string): (r: string)
    ensures search == [] ==> r == subject
    ensures search != [] ==> r == ReplaceAll(subject, search, replace)
    ensures r == subject <==> (search == [] || search == replace || !Occurs(subject, search))
  {
    if search == [] then subject
    else
      ReplaceAllFixpoint(subject, search, replace);
      ReplaceAll(subject, search, replace)
  }

  /** Shifting a match by one position when the first character is dropped. */
  lemma OccursAtTail(s: string, needle: string, i: nat)
    requires |s| > 0
    ensures OccursAt(s[1..], needle, i) <==> OccursAt(s, needle, i + 1)
  {
    if i + 1 + |needle| <= |s| {
      assert s[1..][i..i + |needle|] == s[i + 1..i + 1 + |needle|];
    }
  }

  /** Without a match, ReplaceAll returns its subject. */
  lemma {:induction false} ReplaceAllNoMatch(s: string, needle: string, rep: string)
    requires needle != []
    requires !Occurs(s, needle)
    ensures ReplaceAll(s, needle, rep) == s
    decreases |s|
  {
    if |s| >= |needle| {
      assert !OccursAt(s, needle, 0);
      forall i: nat ensures !OccursAt(s[1..], needle, i) {
        OccursAtTail(s, needle, i);
      }
      ReplaceAllNoMatch(s[1..], needle, rep);
    }
  }

  /** Replacing a string by itself changes nothing. */
  lemma {:induction false} ReplaceAllIdentity(s: string, needle: string)
    requires needle != []
    ensures ReplaceAll(s, needle, needle) == s
    decreases |s|
  {
    if |s| >= |needle| {
      if s[..|needle|] == needle {
        ReplaceAllIdentity(s[|needle|..], needle);
        assert s == s[..|needle|] + s[|needle|..];
      } else {
        ReplaceAllIdentity(s[1..], needle);
        assert s == [s[0]] + s[1..];
      }
    }
  }

  /** Each of the MatchCount(s, needle) replacements changes the length by
      |rep| - |needle|. */
  lemma {:induction false} ReplaceAllLength(s: string, needle: string, rep: string)
    requires needle != []
    ensures |ReplaceAll(s, needle, rep)| == |s| + MatchCount(s, needle) * (|rep| - |needle|)
    decreases |s|
  {
    if |s| >= |needle| {
      if s[..|needle|] == needle {
        ReplaceAllLength(s[|needle|..], needle, rep);
        var c := MatchCount(s[|needle|..], needle);
        var d := |rep| - |needle|;
        assert MatchCount(s, needle) == 1 + c;
        assert |ReplaceAll(s, needle, rep)| == |rep| + (|s| - |needle|) + c * d;
        Distribute(c, d);
      } else {
        ReplaceAllLength(s[1..], needle, rep);
      }
    }
  }

  /** The result is at least as long as the subject when the replacement is at least
      as long as the needle, and at most as long when it is at most as long. */
  lemma {:induction false} ReplaceAllLengthCompare(s: string, needle: string, rep: string)
    requires needle != []
    ensures |rep| >= |needle| ==> |ReplaceAll(s, needle, rep)| >= |s|
    ensures |rep| <= |needle| ==> |ReplaceAll(s, needle, rep)| <= |s|
    decreases |s|
  {
    if |s| >= |needle| {
      if s[..|needle|] == needle {
        ReplaceAllLengthCompare(s[|needle|..], needle, rep);
      } else {
        ReplaceAllLengthCompare(s[1..], needle, rep);
      }
    }
  }

  /** One more replacement adds one more difference in length. */
  lemma Distribute(c: int, d: int)
    ensures (1 + c) * d == d + c * d
  {
  }

  /** A match replaced by a different string always shows in the result. */
  lemma {:induction false} ReplaceAllChanges(s: string, needle: string, rep: string)
    requires needle != [] && rep != needle
    requires Occurs(s, needle)
    ensures ReplaceAll(s, needle, rep) != s
    decreases |s|
  {
    var i: nat :| OccursAt(s, needle, i);
    var r := ReplaceAll(s, needle, rep);
    if s[..|needle|] == needle {
      var q := s[|needle|..];
      var rq := ReplaceAll(q, needle, rep);
      assert r == rep + rq;
      if |rep| == |needle| {
        assert r[..|needle|] == rep;
      } else {
        ReplaceAllLengthCompare(q, needle, rep);
        assert |s| == |needle| + |q|;
      }
    } else {
      assert s[0..|needle|] == s[..|needle|];
      OccursAtTail(s, needle, i - 1);
      ReplaceAllChanges(s[1..], needle, rep);
      assert r == [s[0]] + ReplaceAll(s[1..], needle, rep);
      assert r[1..] == ReplaceAll(s[1..], needle, rep);
    }
  }

  /** ReplaceAll leaves its subject unchanged exactly when there is no match or the
      replacement equals the needle. */
  lemma ReplaceAllFixpoint(s: string, needle: string, rep: string)
    requires needle != []
    ensures ReplaceAll(s, needle, rep) == s <==> (rep == needle || !Occurs(s, needle))
  {
    if rep == needle {
      ReplaceAllIdentity(s, needle);
    } else if Occurs(s, needle) {
      ReplaceAllChanges(s, needle, rep);
    } else {
      ReplaceAllNoMatch(s, needle, rep);
    }
  }

  /** The scan copies everything before the first match, puts `rep` in its place and
      goes on after it. */
  lemma {:induction false} ReplaceAllFirstMatch(p: string, needle: string, q: string, rep: string)
    requires needle != []
    requires forall i: nat :: i < |p| ==> !OccursAt(p + needle + q, needle, i)
    ensures ReplaceAll(p + needle + q, needle, rep) == p + rep + ReplaceAll(q, needle, rep)
    decreases |p|
  {
    var s := p + needle + q;
    if p == [] {
      assert s == needle + q;
      assert s[..|needle|] == needle;
      assert s[|needle|..] == q;
    } else {
      var s' := p[1..] + needle + q;
      assert s[1..] == s';
      assert !OccursAt(s, needle, 0);
      assert s[0..|needle|] == s[..|needle|];
      assert ReplaceAll(s, needle, rep) == [p[0]] + ReplaceAll(s', needle, rep);
      forall i: nat | i < |p[1..]| ensures !OccursAt(s', needle, i) {
        OccursAtTail(s, needle, i);
      }
      ReplaceAllFirstMatch(p[1..], needle, q, rep);
      assert p == [p[0]] + p[1..];
    }
  }

  /** A subject with a single match: only that match changes. */
  lemma OnlyMatch(p: string, needle: string, q: string, rep: string)
    requires needle != []
    requires forall i: nat :: i < |p| ==> !OccursAt(p + needle + q, needle, i)
    requires !Occurs(q, needle)
    ensures ReplaceAll(p + needle + q, needle, rep) == p + rep + q
  {
    ReplaceAllFirstMatch(p, needle, q, rep);
    ReplaceAllNoMatch(q, needle, rep);
  }
}
