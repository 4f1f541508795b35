/**
 * Normalisation of the text that is matched during autocomplete. In English
 * both the query and each candidate name go through Python's
 * `re.sub(r'[^a-z ]', '', s.lower())`; in Chinese they are used as they are.
 */
module Query {
  import opened LangDict

  /** Whether a character survives the English normalisation unchanged. */
  predicate IsKept(c: char) {
    'a' <= c <= 'z' || c == ' '
  }

  /** Whether anything of a character is left after lowering and filtering:
      it is kept as it is, or it is an upper-case letter whose lower case is. */
  predicate Survives(c: char) {
    IsKept(c) || 'A' <= c <= 'Z' || c == '\U{212a}' || c == '\U{130}'
  }

  /** What `re.sub(r'[^a-z ]', '', c.lower())` leaves of one character. Python's
      lowercase of a character reaches `a`..`z` only from `A`..`Z`, from U+212A
      KELVIN SIGN (to `k`) and from U+0130 (to `i` followed by U+0307, a mark
      that the filter drops); every other character is dropped. */
  function KeptLower(c: char): (r: seq<char>)
    ensures |r| <= 1
    ensures forall d :: d in r ==> IsKept(d)
    ensures IsKept(c) ==> r == [c]
    ensures 'A' <= c <= 'Z' ==> r == [(c as int + 32) as char] && 'a' <= r[0] <= 'z'
    ensures c == '\U{212a}' ==> r == ['k']
    ensures c == '\U{130}' ==> r == ['i']
    ensures r != [] <==> Survives(c)
  {
    if 'A' <= c <= 'Z' then [(c as int + 32) as char]
    else if IsKept(c) then [c]
    else if c == '\U{212a}' then ['k']
    else if c == '\U{130}' then ['i']
    else []
  }

  /** Python's `c.lower()` on the characters that survive the filter, taken
      to the one character the filter keeps. */
  function LowerChar(c: char): char
    requires Survives(c)
  {
    if 'A' <= c <= 'Z' then (c as int + 32) as char
    else if c == '\U{212a}' then 'k'
    else if c == '\U{130}' then 'i'
    else c
  }

  /** The English normalisation of a whole string, character by character. */
  function NormaliseEnglish(s: string): (r: string)
    ensures |r| <= |s|
    ensures forall k :: 0 <= k < |r| ==> IsKept(r[k])
  {
    if s == [] then [] else KeptLower(s[0]) + NormaliseEnglish(s[1..])
  }

  /** The English normalisation is empty exactly when no character of the
      input survives lowering and filtering. */
  lemma {:induction false} NormaliseEnglishEmpty(s: string)
    ensures NormaliseEnglish(s) == [] <==> forall k :: 0 <= k < |s| ==> !Survives(s[k])
  {
    if s != [] {
      var t := s[1..];
      NormaliseEnglishEmpty(t);
      assert |NormaliseEnglish(s)| == |KeptLower(s[0])| + |NormaliseEnglish(t)|;
      assert (forall k :: 0 <= k < |s| ==> !Survives(s[k]))
         <==> !Survives(s[0]) && (forall k :: 0 <= k < |t| ==> !Survives(t[k])) by {
        assert forall k :: 0 <= k < |t| ==> t[k] == s[k + 1];
      }
    }
  }

  /** The English normalisation is as long as the input exactly when every
      character survives. */
  lemma {:induction false} NormaliseEnglishFull(s: string)
    ensures |NormaliseEnglish(s)| == |s| <==> forall k :: 0 <= k < |s| ==> Survives(s[k])
  {
    if s != [] {
      var t := s[1..];
      NormaliseEnglishFull(t);
      assert NormaliseEnglish(s) == KeptLower(s[0]) + NormaliseEnglish(t);
      assert (forall k :: 0 <= k < |s| ==> Survives(s[k]))
         <==> Survives(s[0]) && (forall k :: 0 <= k < |t| ==> Survives(t[k])) by {
        assert forall k :: 0 <= k < |t| ==> t[k] == s[k + 1];
      }
    }
  }

  /** On a string every character of which survives, the English
      normalisation is the character-by-character lower case: `A`..`Z` move
      to `a`..`z`, U+212A becomes `k`, U+0130 becomes `i`, and `a`..`z` and
      the space stay. */
  lemma {:induction false} NormaliseEnglishLowers(s: string)
    requires forall k :: 0 <= k < |s| ==> Survives(s[k])
    ensures |NormaliseEnglish(s)| == |s|
    ensures forall k :: 0 <= k < |s| ==> NormaliseEnglish(s)[k] == LowerChar(s[k])
  {
    if s != [] {
      NormaliseEnglishLowers(s[1..]);
      var r := NormaliseEnglish(s);
      assert r == KeptLower(s[0]) + NormaliseEnglish(s[1..]);
      forall k | 0 <= k < |s| ensures r[k] == LowerChar(s[k]) {
        if k > 0 {
          assert r[k] == NormaliseEnglish(s[1..])[k - 1];
          assert s[1..][k - 1] == s[k];
        }
      }
    }
  }

  /** The normalisation applied to the query and to every candidate name in
      the given language. */
  function Normalise(s: string, lang: Language): string
  {
    match lang
    case English => NormaliseEnglish(s)
    case Chinese => s
  }

  /** A string made only of `a`..`z` and spaces is its own normalisation. */
  lemma {:induction false} NormaliseEnglishKeepsClean(s: string)
    requires forall k :: 0 <= k < |s| ==> IsKept(s[k])
    ensures NormaliseEnglish(s) == s
  {
    if s != [] {
      NormaliseEnglishKeepsClean(s[1..]);
      assert [s[0]] + s[1..] == s;
    }
  }

  /** Normalising twice is normalising once, in either language. */
  lemma NormaliseIdempotent(s: string, lang: Language)
    ensures Normalise(Normalise(s, lang), lang) == Normalise(s, lang)
  {
    if lang == English {
      NormaliseEnglishKeepsClean(NormaliseEnglish(s));
    }
  }

  /** The English normalisation works piece by piece. */
  lemma {:induction false} NormaliseEnglishConcat(a: string, b: string)
    ensures NormaliseEnglish(a + b) == NormaliseEnglish(a) + NormaliseEnglish(b)
  {
    if a != [] {
      assert (a + b)[1..] == a[1..] + b;
      NormaliseEnglishConcat(a[1..], b);
    } else {
      assert a + b == b;
    }
  }

  /** Spaces are kept, so a query of spaces only does not normalise to the
      empty string and is not answered by the empty-query shortcut. */
  lemma SpacesSurviveNormalisation(s: string)
    requires s != [] && forall k :: 0 <= k < |s| ==> s[k] == ' '
    ensures Normalise(s, English) == s != ""
  {
    NormaliseEnglishKeepsClean(s);
  }

  /** Text with no Latin letter, such as a Chinese name, normalises to the
      empty string in English. */
  lemma {:induction false} NoLatinNormalisesEmpty(s: string)
    requires forall k :: 0 <= k < |s| ==> KeptLower(s[k]) == []
    ensures Normalise(s, English) == ""
  {
    if s != [] {
      NoLatinNormalisesEmpty(s[1..]);
    }
  }
}
