/**
 The file-name sanitiser (`sanitizeFileName`): every occurrence of the nine
 characters a path may not hold on common file systems is deleted, then
 white space is trimmed from both ends.
 */
module FileName {
  import opened GoText

  /** The characters of the class `[\\/:*?"<>|]`. */
  predicate IsIllegal(c: char) {
    c == '\\' || c == '/' || c == ':' || c == '*' || c == '?' || c == '"' || c == '<' || c == '>' || c == '|'
  }

  predicate NoIllegal(s: string) {
    forall k :: 0 <= k < |s| ==> !IsIllegal(s[k])
  }

  /** Deletes every illegal character, keeping the others in order. */
  function StripIllegal(s: string): (r: string)
    ensures NoIllegal(r)
    ensures |r| <= |s|
  {
    if |s| == 0 then []
    else if IsIllegal(s[|s| - 1]) then StripIllegal(s[..|s| - 1])
    else StripIllegal(s[..|s| - 1]) + [s[|s| - 1]]
  }

  /** `sanitizeFileName`. */
  function SanitizeFileName(name: string): (r: string)
    ensures NoIllegal(r)
    ensures Trimmed(r)
  {
    var stripped := StripIllegal(name);
    var r := TrimSpace(stripped);
    assert NoIllegal(r) by {
      var i :| SpaceAround(stripped, r, i);
      SpaceAroundSplits(stripped, r, i);
      assert forall k :: 0 <= k < |r| ==> r[k] in stripped;
    }
    r
  }

  /** Stripping works piecewise: it never reorders characters and never looks
      across a boundary. */
  lemma {:induction false} StripIllegalAppend(a: string, b: string)
    ensures StripIllegal(a + b) == StripIllegal(a) + StripIllegal(b)
    decreases |b|
  {
    if |b| == 0 {
      assert a + b == a;
    } else {
      var b' := b[..|b| - 1];
      assert (a + b)[..|a + b| - 1] == a + b';
      StripIllegalAppend(a, b');
    }
  }

  /** A single character survives exactly when it is legal. */
  lemma StripIllegalChar(c: char)
    ensures StripIllegal([c]) == if IsIllegal(c) then [] else [c]
  {
    assert [c][..0] == [];
  }

  /** For every legal character, stripping keeps all its occurrences, and it
      keeps none of the illegal ones. */
  lemma {:induction false} StripIllegalCounts(s: string, c: char)
    ensures multiset(StripIllegal(s))[c] == if IsIllegal(c) then 0 else multiset(s)[c]
  {
    if |s| > 0 {
      var p := s[..|s| - 1];
      assert s == p + [s[|s| - 1]];
      StripIllegalCounts(p, c);
    }
  }

  /** A string with no illegal character is left alone. */
  lemma {:induction false} StripIllegalFixes(s: string)
    requires NoIllegal(s)
    ensures StripIllegal(s) == s
  {
    if |s| > 0 {
      StripIllegalFixes(s[..|s| - 1]);
      assert s == s[..|s| - 1] + [s[|s| - 1]];
    }
  }

  /** What the sanitiser removes: the result sits in the stripped name
      between a white-space prefix and a white-space suffix, so only illegal
      characters and white space at the two ends are dropped, and the other
      characters keep their order. Together with `TrimSpaceUnique` this pins
      the result down. */
  lemma SanitizeRemovesOnlyIllegalAndEdgeSpace(name: string)
    ensures exists lead, trail ::
      AllSpace(lead) && AllSpace(trail) && StripIllegal(name) == lead + SanitizeFileName(name) + trail
  {
    var stripped := StripIllegal(name);
    var r := SanitizeFileName(name);
    var i :| SpaceAround(stripped, r, i);
    SpaceAroundSplits(stripped, r, i);
    assert AllSpace(stripped[..i]) && AllSpace(stripped[i + |r|..]) && stripped == stripped[..i] + r + stripped[i + |r|..];
  }

  /** Sanitising twice is sanitising once. */
  lemma SanitizeIdempotent(name: string)
    ensures SanitizeFileName(SanitizeFileName(name)) == SanitizeFileName(name)
  {
    var r := SanitizeFileName(name);
    StripIllegalFixes(r);
    TrimSpaceFixesTrimmed(r);
  }

  /** A name that is already clean (no illegal characters, no white space at
      either end) is kept as it is. */
  lemma SanitizeFixesClean(name: string)
    requires NoIllegal(name) && Trimmed(name)
    ensures SanitizeFileName(name) == name
  {
    StripIllegalFixes(name);
    TrimSpaceFixesTrimmed(name);
  }

  /** A worked case: the colon and the question mark go, the space between
      the words stays. */
  lemma SanitizeExample()
    ensures SanitizeFileName("My: Paper?") == "My Paper"
  {
    StripExample();
    TrimSpaceFixesTrimmed("My Paper");
  }

  lemma StripExample()
    ensures StripIllegal("My: Paper?") == "My Paper"
  {
    assert "My: Paper?" == "My:" + " Paper?";
    StripIllegalAppend("My:", " Paper?");
    StripLeftExample();
    StripRightExample();
    assert "My" + " Paper" == "My Paper";
  }

  lemma StripLeftExample()
    ensures StripIllegal("My:") == "My"
  {
    assert "My:"[..2] == "My";
    assert "My"[..1] == "M";
    assert "M"[..0] == [];
  }

  lemma StripRightExample()
    ensures StripIllegal(" Paper?") == " Paper"
  {
    assert " Paper?"[..6] == " Paper";
    StripIllegalFixes(" Paper");
  }
}
