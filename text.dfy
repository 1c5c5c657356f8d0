/** The string operations of the .NET base library that the endpoint engine
    relies on, restricted to what the engine needs: ordinal substring search,
    ASCII lower-casing and the blank test. */
module Text {
  import opened Options

  /** `t` is a prefix of `s`. */
  predicate IsPrefix(t: string, s: string) {
    |t| <= |s| && s[..|t|] == t
  }

  /** `t` occurs in `s` starting at position `i`. */
  ghost predicate OccursAt(s: string, t: string, i: int) {
    0 <= i && i + |t| <= |s| && s[i..i + |t|] == t
  }

  /** `s.Contains(t)`: an ordinal substring test. */
  predicate Contains(s: string, t: string)
    ensures Contains(s, t) ==> |t| <= |s|
    decreases |s|
  {
    IsPrefix(t, s) || (|s| > 0 && Contains(s[1..], t))
  }

  /** Contains agrees with the reference definition: some position of `s`
      starts an occurrence of `t`. */
  lemma {:induction false} ContainsIff(s: string, t: string)
    ensures Contains(s, t) <==> exists i :: OccursAt(s, t, i)
    decreases |s|
  {
    if IsPrefix(t, s) {
      assert OccursAt(s, t, 0);
    } else if |s| > 0 {
      ContainsIff(s[1..], t);
      if Contains(s[1..], t) {
        var i :| OccursAt(s[1..], t, i);
        assert s[i + 1..i + 1 + |t|] == s[1..][i..i + |t|];
        assert OccursAt(s, t, i + 1);
      } else {
        forall i | 1 <= i && OccursAt(s, t, i) ensures OccursAt(s[1..], t, i - 1) {
          assert s[1..][i - 1..i - 1 + |t|] == s[i..i + |t|];
        }
      }
    }
  }

  /** Every string contains the empty string, as .NET's ordinal `Contains`
      answers. The query path never searches for "" (a blank search is
      skipped), so this records the boundary case of `Contains` itself. */
  lemma ContainsEmpty(s: string)
    ensures Contains(s, "")
  {
    assert s[..0] == "";
  }

  /** A non-empty `t` whose first character does not occur in `s` is not
      contained in `s`. */
  lemma {:induction false} NotContainsWithoutFirstChar(s: string, t: string)
    requires |t| > 0
    requires forall i :: 0 <= i < |s| ==> s[i] != t[0]
    ensures !Contains(s, t)
    decreases |s|
  {
    if |t| <= |s| {
      assert s[..|t|][0] == s[0];
    }
    if |s| > 0 {
      NotContainsWithoutFirstChar(s[1..], t);
    }
  }

  /** The characters `char.IsWhiteSpace` accepts in the ASCII range. */
  predicate IsWhite(c: char) {
    c == ' ' || c == '\t' || c == '\n' || c == '\r' || c as int == 11 || c as int == 12
  }

  /** `string.IsNullOrWhiteSpace(s)`, a missing string being `None`. */
  predicate IsNullOrWhiteSpace(s: Option<string>)
    ensures s.None? || s == Some("") ==> IsNullOrWhiteSpace(s)
    ensures s.Some? ==> (!IsNullOrWhiteSpace(s) <==> exists c :: c in s.value && !IsWhite(c))
  {
    s.None? || forall i :: 0 <= i < |s.value| ==> IsWhite(s.value[i])
  }

  predicate IsUpper(c: char) {
    'A' <= c <= 'Z'
  }

  function ToLowerChar(c: char): char {
    if IsUpper(c) then (c as int + 32) as char else c
  }

  /** `s.ToLower()` on ASCII letters. */
  function ToLower(s: string): (r: string)
    ensures |r| == |s|
    ensures forall i :: 0 <= i < |s| ==> !IsUpper(r[i])
    ensures forall i :: 0 <= i < |s| ==> (IsUpper(s[i]) || r[i] == s[i])
    ensures forall i :: 0 <= i < |s| && IsUpper(s[i]) ==> r[i] as int == s[i] as int + 32
  {
    if s == [] then [] else [ToLowerChar(s[0])] + ToLower(s[1..])
  }

  /** Lower-casing a name twice gives the same route prefix as once. */
  lemma {:induction false} ToLowerIdempotent(s: string)
    ensures ToLower(ToLower(s)) == ToLower(s)
  {
    var r := ToLower(s);
    var rr := ToLower(r);
    assert |rr| == |r|;
    forall i | 0 <= i < |r| ensures rr[i] == r[i] {
    }
  }
}
