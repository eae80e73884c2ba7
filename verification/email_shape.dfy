/** The email-shape test `/^[^\s@]+@[^\s@]+\.[^\s@]+$/` that both handlers
    apply. It is a plain shape test, not an address parser. */
module EmailShape {

  /** The characters JavaScript's `\s` class matches. */
  predicate IsWhitespace(c: char)
  {
    || c == ' ' || c == '\t' || c == '\n' || c == '\r'
    || c == '\U{000B}' || c == '\U{000C}' || c == '\U{00A0}' || c == '\U{1680}'
    || ('\U{2000}' <= c <= '\U{200A}')
    || c == '\U{2028}' || c == '\U{2029}' || c == '\U{202F}' || c == '\U{205F}'
    || c == '\U{3000}' || c == '\U{FEFF}'
  }

  /** A character of the class `[^\s@]`. */
  predicate IsAtomChar(c: char)
  {
    !IsWhitespace(c) && c != '@'
  }

  /** `s` matches `[^\s@]*` (the `+` is enforced by the index bounds below). */
  predicate AllAtomChars(s: string)
  {
    forall k :: 0 <= k < |s| ==> IsAtomChar(s[k])
  }

  /** Reference reading of the regex: `s` splits as `A "@" B "." C` with
      `A`, `B`, `C` non-empty runs of `[^\s@]`; `i` is the `@`, `j` the `.`. */
  ghost predicate MatchesEmailRegex(s: string)
  {
    exists i, j ::
      && 0 < i && i + 1 < j && j + 1 < |s|
      && s[i] == '@' && s[j] == '.'
      && AllAtomChars(s[..i]) && AllAtomChars(s[i + 1..j]) && AllAtomChars(s[j + 1..])
  }

  /** Position of the first `c` in `s`, or `|s|` when there is none. */
  function IndexOf(s: string, c: char): (k: nat)
    ensures k <= |s|
    ensures k < |s| ==> s[k] == c
    ensures forall m :: 0 <= m < k ==> s[m] != c
  {
    if |s| == 0 then 0
    else if s[0] == c then 0
    else 1 + IndexOf(s[1..], c)
  }

  /** A `.` that is neither the first nor the last character of `domain`. */
  predicate HasInteriorDot(domain: string)
  {
    exists j :: 0 < j < |domain| - 1 && domain[j] == '.'
  }

  /** The executable check: no whitespace, exactly one `@`, a non-empty local
      part, and an interior `.` in the domain after the `@`. */
  predicate IsEmailShape(s: string)
  {
    && (forall k :: 0 <= k < |s| ==> !IsWhitespace(s[k]))
    && var at := IndexOf(s, '@');
       && 0 < at < |s|
       && (forall k :: at < k < |s| ==> s[k] != '@')
       && HasInteriorDot(s[at + 1..])
  }

  lemma {:induction false} AllAtomCharsSlice(s: string, lo: nat, hi: nat)
    requires lo <= hi <= |s|
    requires forall k :: lo <= k < hi ==> IsAtomChar(s[k])
    ensures AllAtomChars(s[lo..hi])
  {
    forall k | 0 <= k < hi - lo ensures IsAtomChar(s[lo..hi][k]) {
      assert s[lo..hi][k] == s[lo + k];
    }
  }

  lemma {:induction false} AllAtomCharsElement(s: string, lo: nat, hi: nat, k: nat)
    requires lo <= k < hi <= |s|
    requires AllAtomChars(s[lo..hi])
    ensures IsAtomChar(s[k])
  {
    assert s[lo..hi][k - lo] == s[k];
  }

  /** Every string the executable check accepts matches the regex. */
  lemma {:induction false} ShapeImpliesRegex(s: string)
    requires IsEmailShape(s)
    ensures MatchesEmailRegex(s)
  {
    var i := IndexOf(s, '@');
    var domain := s[i + 1..];
    var d :| 0 < d < |domain| - 1 && domain[d] == '.';
    var j := i + 1 + d;
    assert s[j] == '.';
    AllAtomCharsSlice(s, 0, i);
    AllAtomCharsSlice(s, i + 1, j);
    AllAtomCharsSlice(s, j + 1, |s|);
    assert s[..i] == s[0..i];
    assert s[j + 1..] == s[j + 1..|s|];
  }

  /** Every string the regex matches passes the executable check. */
  lemma {:induction false} RegexImpliesShape(s: string)
    requires MatchesEmailRegex(s)
    ensures IsEmailShape(s)
  {
    var i, j :| && 0 < i && i + 1 < j && j + 1 < |s|
                && s[i] == '@' && s[j] == '.'
                && AllAtomChars(s[..i]) && AllAtomChars(s[i + 1..j]) && AllAtomChars(s[j + 1..]);
    assert s[..i] == s[0..i];
    assert s[j + 1..] == s[j + 1..|s|];
    forall k | 0 <= k < |s| && k != i ensures IsAtomChar(s[k]) {
      if k < i {
        AllAtomCharsElement(s, 0, i, k);
      } else if k < j {
        AllAtomCharsElement(s, i + 1, j, k);
      } else if k > j {
        AllAtomCharsElement(s, j + 1, |s|, k);
      }
    }
    assert IndexOf(s, '@') == i;
    var domain := s[i + 1..];
    assert domain[j - (i + 1)] == '.';
  }

  /** The executable check accepts exactly the strings the regex matches. */
  lemma IsEmailShapeMatchesRegex(s: string)
    ensures IsEmailShape(s) <==> MatchesEmailRegex(s)
  {
    if IsEmailShape(s) {
      ShapeImpliesRegex(s);
    }
    if MatchesEmailRegex(s) {
      RegexImpliesShape(s);
    }
  }

  /** Three malformed shapes that are turned away, and one plain address. */
  lemma NoDomainDotRejected()
    ensures !IsEmailShape("a@b")
  {
    assert IndexOf("a@b", '@') == 1;
  }

  lemma NoAtRejected()
    ensures !IsEmailShape("not-an-email")
  {
    assert '@' !in "not-an-email";
  }

  lemma EmptyRejected()
    ensures !IsEmailShape("")
  {
  }

  lemma PlainAddressAccepted()
    ensures IsEmailShape("a@b.com")
  {
    var s := "a@b.com";
    assert IndexOf(s, '@') == 1;
    assert s[2..][1] == '.';
    forall k | 0 <= k < |s| ensures !IsWhitespace(s[k]) {
      assert s[k] in "ab@.com";
    }
  }
}
