/**
  The string primitives the controllers rely on: PHP's `trim` with its default
  character list, PHP's `strtoupper` (ASCII only), and the CIN pattern
  `/^[A-Z0-9]+$/` as PCRE reads it.
 */
module Text {

  /** PHP's default `trim` list: space, tab, line feed, carriage return, NUL and vertical tab. */
  predicate IsTrimChar(c: char) {
    c == ' ' || c == '\t' || c == '\n' || c == '\r' || c == '\0' || c as int == 0x0B
  }

  /** `s` with its leading trim characters removed. */
  function TrimLeft(s: string): (r: string)
    ensures |r| <= |s| && r == s[|s| - |r|..]
    ensures forall i :: 0 <= i < |s| - |r| ==> IsTrimChar(s[i])
    ensures r == [] || !IsTrimChar(r[0])
  {
    if |s| > 0 && IsTrimChar(s[0]) then TrimLeft(s[1..]) else s
  }

  /** `s` with its trailing trim characters removed. */
  function TrimRight(s: string): (r: string)
    ensures |r| <= |s| && r == s[..|r|]
    ensures forall i :: |r| <= i < |s| ==> IsTrimChar(s[i])
    ensures r == [] || !IsTrimChar(r[|r| - 1])
  {
    if |s| > 0 && IsTrimChar(s[|s| - 1]) then TrimRight(s[..|s| - 1]) else s
  }

  /** PHP `trim($s)`: neither end of the result is a trim character. */
  function Trim(s: string): (r: string)
    ensures |r| <= |s|
    ensures r == [] || (!IsTrimChar(r[0]) && !IsTrimChar(r[|r| - 1]))
  {
    TrimRight(TrimLeft(s))
  }

  /** Where `Trim(s)` starts inside `s`. */
  function TrimStart(s: string): nat {
    |s| - |TrimLeft(s)|
  }

  /** `Trim(s)` is the factor of `s` starting at `TrimStart(s)`. */
  lemma TrimIsFactor(s: string)
    ensures TrimStart(s) + |Trim(s)| <= |s|
    ensures Trim(s) == s[TrimStart(s)..TrimStart(s) + |Trim(s)|]
  {
    var l := TrimLeft(s);
    var r := TrimRight(l);
    var lo := |s| - |l|;
    assert l == s[lo..];
    assert r == l[..|r|];
    assert l[..|r|] == s[lo..lo + |r|];
  }

  /** Everything `Trim` cuts off, on either side, is a trim character. */
  lemma TrimCutsOnlyTrimChars(s: string)
    ensures forall i :: 0 <= i < TrimStart(s) ==> IsTrimChar(s[i])
    ensures forall i :: TrimStart(s) + |Trim(s)| <= i < |s| ==> IsTrimChar(s[i])
  {
    var l := TrimLeft(s);
    var r := TrimRight(l);
    var lo := |s| - |l|;
    assert l == s[lo..];
    forall i | lo + |r| <= i < |s|
      ensures IsTrimChar(s[i])
    {
      assert s[i] == l[i - lo];
    }
  }

  /** A string Laravel's `required` rule rejects: empty once trimmed. */
  predicate Blank(s: string) {
    Trim(s) == []
  }

  lemma BlankIffAllTrimChars(s: string)
    ensures Blank(s) <==> forall i :: 0 <= i < |s| ==> IsTrimChar(s[i])
  {
    if !Blank(s) {
      TrimIsFactor(s);
      assert s[TrimStart(s)] == Trim(s)[0];
    }
  }

  /** A string whose two ends are not trim characters is its own trim. */
  lemma {:induction false} TrimOfTrimmed(s: string)
    requires s == [] || (!IsTrimChar(s[0]) && !IsTrimChar(s[|s| - 1]))
    ensures Trim(s) == s
  {
    assert TrimLeft(s) == s;
    assert TrimRight(s) == s;
  }

  lemma TrimIdempotent(s: string)
    ensures Trim(Trim(s)) == Trim(s)
  {
    TrimOfTrimmed(Trim(s));
  }

  /** PHP 8 `strtoupper` on one character: only ASCII a-z change. */
  function UpperChar(c: char): char {
    if 'a' <= c <= 'z' then (c as int - 32) as char else c
  }

  function Upper(s: string): (r: string)
    ensures |r| == |s|
    ensures forall i :: 0 <= i < |s| ==> r[i] == UpperChar(s[i])
  {
    seq(|s|, i requires 0 <= i < |s| => UpperChar(s[i]))
  }

  /** No ASCII lower-case letter occurs in `s`. */
  predicate HasNoLower(s: string) {
    forall i :: 0 <= i < |s| ==> !('a' <= s[i] <= 'z')
  }

  /**
    `strtoupper` changes a character exactly when it is an ASCII lower-case
    letter, into an upper-case one, and leaves no lower-case letter behind.
   */
  lemma UpperChangesOnlyLower(s: string)
    ensures |Upper(s)| == |s|
    ensures forall i :: 0 <= i < |s| ==> (Upper(s)[i] != s[i] <==> 'a' <= s[i] <= 'z')
    ensures forall i :: 0 <= i < |s| && 'a' <= s[i] <= 'z' ==> 'A' <= Upper(s)[i] <= 'Z'
    ensures HasNoLower(Upper(s))
  {
  }

  /** `strtoupper` leaves a string unchanged exactly when it has no lower-case letter. */
  lemma UpperFixedIff(s: string)
    ensures Upper(s) == s <==> HasNoLower(s)
  {
    UpperChangesOnlyLower(s);
    if !HasNoLower(s) {
      var i :| 0 <= i < |s| && 'a' <= s[i] <= 'z';
      assert Upper(s)[i] != s[i];
    }
  }

  /** Upper-casing twice is upper-casing once. */
  lemma UpperIdempotent(s: string)
    ensures Upper(Upper(s)) == Upper(s)
  {
    UpperChangesOnlyLower(s);
    UpperFixedIff(Upper(s));
  }

  /** The character class `[A-Z0-9]`. */
  predicate IsCinChar(c: char) {
    'A' <= c <= 'Z' || '0' <= c <= '9'
  }

  /** One or more characters of `[A-Z0-9]`. */
  predicate IsCinWord(s: string) {
    |s| > 0 && forall i :: 0 <= i < |s| ==> IsCinChar(s[i])
  }

  /**
    `preg_match('/^[A-Z0-9]+$/', s)`: without the D modifier PCRE lets `$`
    match just before a final line feed, so one trailing "\n" is accepted.
   */
  predicate MatchesCinPattern(s: string) {
    IsCinWord(s) || (|s| >= 2 && s[|s| - 1] == '\n' && IsCinWord(s[..|s| - 1]))
  }

  /** The CIN as the violant controller stores it: `strtoupper(trim(s))`. */
  function NormaliseCin(s: string): string {
    Upper(Trim(s))
  }

  /** Normalisation leaves a CIN that already is `[A-Z0-9]+` as it is. */
  lemma NormaliseCinIdentity(s: string)
    requires IsCinWord(s)
    ensures NormaliseCin(s) == s
  {
    TrimOfTrimmed(s);
    assert HasNoLower(s);
    UpperFixedIff(s);
  }

  /**
    Whatever the pattern accepts normalises to a `[A-Z0-9]+` word: either the
    input itself or the input without its final line feed.
   */
  lemma NormaliseCinOfMatch(s: string)
    requires MatchesCinPattern(s)
    ensures IsCinWord(NormaliseCin(s))
    ensures NormaliseCin(s) == s || NormaliseCin(s) + "\n" == s
  {
    if IsCinWord(s) {
      NormaliseCinIdentity(s);
    } else {
      var w := s[..|s| - 1];
      assert s == w + "\n";
      assert TrimLeft(s) == s;
      assert TrimRight(s) == TrimRight(w);
      TrimOfTrimmed(w);
      assert TrimRight(w) == w by {
        assert TrimRight(w) == Trim(w);
      }
      NormaliseCinIdentity(w);
    }
  }

  /**
    A `[A-Z0-9]+` word followed by one line feed matches the pattern and
    normalises to the word alone.
   */
  lemma NormaliseDropsFinalNewline(w: string)
    requires IsCinWord(w)
    ensures MatchesCinPattern(w + "\n") && !Blank(w + "\n")
    ensures NormaliseCin(w + "\n") == w
  {
    var s := w + "\n";
    assert s[..|s| - 1] == w;
    NormaliseCinOfMatch(s);
    assert !IsCinChar(s[|s| - 1]);
    assert NormaliseCin(s) != s;
    assert NormaliseCin(s) + "\n" == w + "\n";
    assert NormaliseCin(s) == (w + "\n")[..|w|];
  }
}
