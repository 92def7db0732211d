/** The e-mail format accepted at registration: the regular expression
    `^[a-zA-Z0-9._%+-]+@[a-zA-Z0-9.-]+\.[a-zA-Z]{2,}$`, stated as a predicate on
    strings, together with a decision procedure proved equivalent to it. */
module EmailFormat {

  predicate Letter(c: char)
  {
    'a' <= c <= 'z' || 'A' <= c <= 'Z'
  }

  predicate Digit(c: char)
  {
    '0' <= c <= '9'
  }

  /** `[a-zA-Z0-9._%+-]` */
  predicate LocalChar(c: char)
  {
    Letter(c) || Digit(c) || c == '.' || c == '_' || c == '%' || c == '+' || c == '-'
  }

  /** `[a-zA-Z0-9.-]` */
  predicate DomainChar(c: char)
  {
    Letter(c) || Digit(c) || c == '.' || c == '-'
  }

  predicate AllLocal(s: string)
  {
    forall i :: 0 <= i < |s| ==> LocalChar(s[i])
  }

  predicate AllDomain(s: string)
  {
    forall i :: 0 <= i < |s| ==> DomainChar(s[i])
  }

  predicate AllLetters(s: string)
  {
    forall i :: 0 <= i < |s| ==> Letter(s[i])
  }

  /** The expression matches the whole of `e` with its `@` at index `at` and the
      dot before the top-level label at index `dot`: a non-empty local part, a
      non-empty domain part and a top-level label of at least two letters. */
  predicate MatchesAt(e: string, at: int, dot: int)
  {
    && 0 < at && at + 1 < dot && dot + 3 <= |e|
    && e[at] == '@' && e[dot] == '.'
    && AllLocal(e[..at])
    && AllDomain(e[at + 1..dot])
    && AllLetters(e[dot + 1..])
  }

  /** `e` matches the expression (for some way of placing `@` and the last dot). */
  ghost predicate ValidEmail(e: string)
  {
    exists at: int, dot: int :: MatchesAt(e, at, dot)
  }

  /** The first position of `c` in `s`, or -1: used to find the `@` when deciding
      the expression. */
  function IndexOf(s: string, c: char): (r: int)
    ensures -1 <= r < |s|
    ensures r == -1 <==> c !in s
    ensures r >= 0 ==> s[r] == c && forall j :: 0 <= j < r ==> s[j] != c
  {
    if |s| == 0 then -1
    else if s[0] == c then 0
    else
      var r := IndexOf(s[1..], c);
      if r == -1 then -1 else r + 1
  }

  /** The last position of `c` in `s`, or -1: used to find the last dot when
      deciding the expression. */
  function LastIndexOf(s: string, c: char): (r: int)
    ensures -1 <= r < |s|
    ensures r == -1 <==> c !in s
    ensures r >= 0 ==> s[r] == c && forall j :: r < j < |s| ==> s[j] != c
  {
    if |s| == 0 then -1
    else if s[|s| - 1] == c then |s| - 1
    else LastIndexOf(s[..|s| - 1], c)
  }

  /** Decides the expression: no character class but the local part's admits `@`
      and none after it admits a dot, so the only placement worth trying is the
      first `@` with the last dot. */
  function IsValidEmail(e: string): (ok: bool)
    ensures ok <==> ValidEmail(e)
  {
    var at := IndexOf(e, '@');
    var dot := LastIndexOf(e, '.');
    var ok := MatchesAt(e, at, dot);
    assert ValidEmail(e) ==> ok by {
      if ValidEmail(e) {
        var a: int, d: int :| MatchesAt(e, a, d);
        PlacementIsForced(e, a, d);
      }
    }
    ok
  }

  /** Any match puts `@` at the first `@` of `e` and the dot at its last dot. */
  lemma PlacementIsForced(e: string, at: int, dot: int)
    requires MatchesAt(e, at, dot)
    ensures at == IndexOf(e, '@') && dot == LastIndexOf(e, '.')
  {
    assert forall j :: 0 <= j < at ==> e[j] != '@' by {
      forall j | 0 <= j < at ensures e[j] != '@' {
        assert LocalChar(e[..at][j]);
      }
    }
    assert forall j :: dot < j < |e| ==> e[j] != '.' by {
      forall j | dot < j < |e| ensures e[j] != '.' {
        assert Letter(e[dot + 1..][j - dot - 1]);
      }
    }
    assert e[at] == '@';
  }

  /** A typical address is accepted and one without a top-level label is not. */
  lemma Examples()
    ensures IsValidEmail("a@b.com")
    ensures !IsValidEmail("a@b")
  {
    assert MatchesAt("a@b.com", 1, 3);
  }

  /** An address without a dot after the `@` is refused. */
  lemma DotlessDomainRefused()
    ensures !ValidEmail("a@b")
  {
    Examples();
  }
}
