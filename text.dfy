/** Text comparisons the repository's derived queries use. */
module Text {

  /**
   * Upper-case Latin and Russian letters mapped to lower case: the stand-in for
   * the database's case-insensitive comparison (UPPER(x) = UPPER(y)).
   */
  function FoldChar(c: char): char
  {
    if 'A' <= c <= 'Z' || 'А' <= c <= 'Я' then (c as int + 32) as char
    else if c == 'Ё' then 'ё'
    else c
  }

  function Fold(s: string): string
  {
    seq(|s|, i requires 0 <= i < |s| => FoldChar(s[i]))
  }

  /** needle occurs in hay as a contiguous piece (SQL LIKE '%needle%', wildcards escaped). */
  predicate Contains(hay: string, needle: string)
    decreases |hay|
  {
    needle <= hay || (hay != [] && Contains(hay[1..], needle))
  }

  /**
   * upper is the capital of lower: a Latin or Russian letter pair (both
   * alphabets put each small letter a fixed distance after its capital), or Ё/ё.
   */
  predicate CasePair(upper: char, lower: char)
  {
    ('A' <= upper <= 'Z' && lower as int - upper as int == 'a' as int - 'A' as int) ||
    ('А' <= upper <= 'Я' && lower as int - upper as int == 'а' as int - 'А' as int) ||
    (upper == 'Ё' && lower == 'ё')
  }

  /** The same letter ignoring case: equal, or one is the capital of the other. */
  predicate SameLetter(c: char, d: char)
  {
    c == d || CasePair(c, d) || CasePair(d, c)
  }

  /** Folding identifies exactly the letters that are the same ignoring case. */
  lemma FoldCharIdentifiesSameLetters(c: char, d: char)
    ensures FoldChar(c) == FoldChar(d) <==> SameLetter(c, d)
  {
  }

  /** Fold compares strings letter by letter. */
  lemma FoldEqualIffSameLetters(a: string, b: string)
    ensures Fold(a) == Fold(b) <==> |a| == |b| && forall i :: 0 <= i < |a| ==> SameLetter(a[i], b[i])
  {
    if |a| == |b| {
      forall i | 0 <= i < |a| ensures Fold(a)[i] == Fold(b)[i] <==> SameLetter(a[i], b[i]) {
        FoldCharIdentifiesSameLetters(a[i], b[i]);
      }
      if forall i :: 0 <= i < |a| ==> SameLetter(a[i], b[i]) {
        assert forall i :: 0 <= i < |a| ==> Fold(a)[i] == Fold(b)[i];
      }
    }
  }

  /** UPPER(a) = UPPER(b): equal lengths, and letter by letter the same letter ignoring case. */
  predicate EqualsIgnoringCase(a: string, b: string): (r: bool)
    ensures r <==> |a| == |b| && forall i :: 0 <= i < |a| ==> SameLetter(a[i], b[i])
    ensures a == b ==> r
  {
    FoldEqualIffSameLetters(a, b);
    Fold(a) == Fold(b)
  }

  /**
   * UPPER(hay) LIKE UPPER('%needle%'): the folded needle starts at some offset
   * of the folded hay. An empty needle, and a hay equal to it ignoring case,
   * always match.
   */
  predicate ContainsIgnoringCase(hay: string, needle: string): (r: bool)
    ensures r <==> exists i :: 0 <= i <= |hay| && Fold(needle) <= Fold(hay)[i..]
    ensures needle == [] ==> r
    ensures EqualsIgnoringCase(hay, needle) ==> r
  {
    ContainsAtSomeOffset(Fold(hay), Fold(needle));
    assert Fold(hay)[0..] == Fold(hay);
    Contains(Fold(hay), Fold(needle))
  }

  /** Contains means: needle starts at some offset of hay. */
  lemma {:induction false} ContainsAtSomeOffset(hay: string, needle: string)
    ensures Contains(hay, needle) <==> exists i :: 0 <= i <= |hay| && needle <= hay[i..]
    decreases |hay|
  {
    if hay == [] {
      assert forall i :: 0 <= i <= |hay| ==> hay[i..] == hay;
    } else {
      var tail := hay[1..];
      ContainsAtSomeOffset(tail, needle);
      if needle <= hay {
        assert hay[0..] == hay;
      } else if Contains(tail, needle) {
        var i :| 0 <= i <= |tail| && needle <= tail[i..];
        assert tail[i..] == hay[i + 1..];
      } else {
        forall i | 0 <= i <= |hay| ensures !(needle <= hay[i..]) {
          if i == 0 {
            assert hay[0..] == hay;
          } else {
            assert hay[i..] == tail[i - 1..];
          }
        }
      }
    }
  }
}
