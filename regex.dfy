/**
 * The fragment of Python's `re` module that the scam checker relies on.
 *
 * Every pattern in streamlit_app.py is a concatenation of literal characters,
 * character classes with a repetition count `{lo,hi}` (including `+`, `?` and
 * `{n,}`), and the zero-width assertion `\b`. For that fragment a backtracking
 * matcher is small enough to write out: `MatchAt` tries repetition counts from
 * the largest down, exactly as Python's engine does, and `FindAll` scans left to
 * right the way `re.findall` does. The declarative relation `Matches` says which
 * substrings a pattern denotes; the engine is proved sound and complete for it.
 */
module Regex {

  datatype Option<T> = None | Some(value: T)

  /** The character classes that occur in the source's patterns. */
  datatype CharClass =
    | Only(c: char)   // a single character, as in `s?`
    | Digit           // \d
    | AsciiDigit      // [0-9]
    | LowerAlnum      // [a-z0-9]
    | EmailLocal      // [A-Za-z0-9._%+-]
    | EmailDomain     // [A-Za-z0-9.-]
    | TldLetter       // [A-Z|a-z], which also admits '|'
    | NonSpace        // [^\s]

  /** Upper bound of a repetition: `{lo,n}` or `{lo,}`. */
  datatype Limit = AtMost(n: nat) | Unbounded

  /** A pattern, read left to right. */
  datatype Pattern =
    | Done
    | Char(c: char, next: Pattern)
    | Repeat(cls: CharClass, lo: nat, hi: Limit, next: Pattern)
    | WordBoundary(next: Pattern)

  predicate IsAsciiDigit(c: char) { '0' <= c <= '9' }

  predicate IsAsciiLetter(c: char) { 'A' <= c <= 'Z' || 'a' <= c <= 'z' }

  /** `\d` on a str pattern: ASCII digits and the full-width digits U+FF10..U+FF19. */
  predicate IsDigit(c: char) { IsAsciiDigit(c) || '\U{FF10}' <= c <= '\U{FF19}' }

  /** `\s` on a str pattern: the characters for which Python's str.isspace() holds. */
  predicate IsSpace(c: char)
  {
    c == ' ' || '\t' <= c <= '\r' || '\U{1C}' <= c <= '\U{1F}' || c == '\U{85}' || c == '\U{A0}'
    || c == '\U{1680}' || '\U{2000}' <= c <= '\U{200A}' || c == '\U{2028}' || c == '\U{2029}'
    || c == '\U{202F}' || c == '\U{205F}' || c == '\U{3000}'
  }

  /**
   * `\w`, which decides `\b`. Exact on ASCII; outside ASCII every character is
   * a word character except whitespace, the General Punctuation block, the
   * punctuation of the CJK Symbols block and the full-width ASCII punctuation.
   */
  predicate IsWordChar(c: char)
  {
    if c < '\U{80}' then
      IsAsciiLetter(c) || IsAsciiDigit(c) || c == '_'
    else
      !(IsSpace(c) || '\U{2000}' <= c <= '\U{206F}'
        || '\U{3000}' <= c <= '\U{3004}' || '\U{3008}' <= c <= '\U{3020}' || c == '\U{3030}'
        || '\U{FF01}' <= c <= '\U{FF0F}' || '\U{FF1A}' <= c <= '\U{FF20}'
        || '\U{FF3B}' <= c <= '\U{FF40}' || '\U{FF5B}' <= c <= '\U{FF65}')
  }

  predicate InClass(cls: CharClass, c: char)
  {
    match cls
    case Only(d) => c == d
    case Digit => IsDigit(c)
    case AsciiDigit => IsAsciiDigit(c)
    case LowerAlnum => 'a' <= c <= 'z' || IsAsciiDigit(c)
    case EmailLocal => IsAsciiLetter(c) || IsAsciiDigit(c) || c in "._%+-"
    case EmailDomain => IsAsciiLetter(c) || IsAsciiDigit(c) || c == '.' || c == '-'
    case TldLetter => IsAsciiLetter(c) || c == '|'
    case NonSpace => !IsSpace(c)
  }

  predicate Within(k: nat, hi: Limit) { hi.Unbounded? || k <= hi.n }

  /** Every character of s[i..j] belongs to cls. */
  predicate AllIn(cls: CharClass, s: string, i: nat, j: nat)
    requires i <= j <= |s|
  {
    forall q :: i <= q < j ==> InClass(cls, s[q])
  }

  /** `\b` at position pos of s: a word character on exactly one side. */
  predicate AtWordBoundary(s: string, pos: nat)
    requires pos <= |s|
  {
    (pos > 0 && IsWordChar(s[pos - 1])) != (pos < |s| && IsWordChar(s[pos]))
  }

  /** s[i..j] is a match of p (the whole of s is the context for `\b`). */
  ghost predicate Matches(p: Pattern, s: string, i: nat, j: nat)
    decreases p
  {
    i <= |s| &&
    match p
    case Done => i == j
    case Char(c, next) => i < |s| && s[i] == c && Matches(next, s, i + 1, j)
    case WordBoundary(next) => AtWordBoundary(s, i) && Matches(next, s, i, j)
    case Repeat(cls, lo, hi, next) =>
      exists m: nat :: i + lo <= m <= |s| && Within(m - i, hi)
                       && AllIn(cls, s, i, m) && Matches(next, s, m, j)
  }

  lemma RepeatIntro(cls: CharClass, lo: nat, hi: Limit, next: Pattern, s: string, i: nat, m: nat, j: nat)
    requires i + lo <= m <= |s| && Within(m - i, hi) && AllIn(cls, s, i, m)
    requires Matches(next, s, m, j)
    ensures Matches(Repeat(cls, lo, hi, next), s, i, j)
  {
  }

  lemma CharElim(c: char, next: Pattern, s: string, i: nat, j: nat)
    requires Matches(Char(c, next), s, i, j)
    ensures i < |s| && s[i] == c && Matches(next, s, i + 1, j)
  {
  }

  /** Repeat(...) matches s[i..j] by taking s[i..m] and leaving s[m..j] to next. */
  lemma RepeatElim(cls: CharClass, lo: nat, hi: Limit, next: Pattern, s: string, i: nat, j: nat) returns (m: nat)
    requires Matches(Repeat(cls, lo, hi, next), s, i, j)
    ensures i + lo <= m <= |s| && Within(m - i, hi) && AllIn(cls, s, i, m) && Matches(next, s, m, j)
  {
    m :| i + lo <= m <= |s| && Within(m - i, hi) && AllIn(cls, s, i, m) && Matches(next, s, m, j);
  }

  /** A non-empty run of cls characters, a literal sep at a, then a match of next. */
  lemma RunSepIntro(cls: CharClass, sep: char, next: Pattern, s: string, i: nat, a: nat, e: nat)
    requires i < a < |s| && AllIn(cls, s, i, a) && s[a] == sep && Matches(next, s, a + 1, e)
    ensures Matches(Repeat(cls, 1, Unbounded, Char(sep, next)), s, i, e)
  {
    RepeatIntro(cls, 1, Unbounded, Char(sep, next), s, i, a, e);
  }

  /** A match of `cls+` then sep splits at the separator's position a. */
  lemma RunSepElim(cls: CharClass, sep: char, next: Pattern, s: string, i: nat, e: nat) returns (a: nat)
    requires Matches(Repeat(cls, 1, Unbounded, Char(sep, next)), s, i, e)
    ensures i < a < |s| && AllIn(cls, s, i, a) && s[a] == sep && Matches(next, s, a + 1, e)
  {
    a := RepeatElim(cls, 1, Unbounded, Char(sep, next), s, i, e);
    CharElim(sep, next, s, a, e);
  }

  /** The literal characters of str, followed by next. */
  function Lits(str: string, next: Pattern): Pattern
  {
    if str == [] then next else Char(str[0], Lits(str[1..], next))
  }

  /** A match of a literal prefix spells that prefix out. */
  lemma {:induction false} LitsElim(str: string, next: Pattern, s: string, i: nat, j: nat)
    requires Matches(Lits(str, next), s, i, j)
    ensures i + |str| <= |s| && s[i..i + |str|] == str && Matches(next, s, i + |str|, j)
  {
    if str != [] {
      LitsElim(str[1..], next, s, i + 1, j);
      assert s[i..i + |str|] == [s[i]] + s[i + 1..i + 1 + |str[1..]|];
    }
  }

  lemma {:induction false} LitsIntro(str: string, next: Pattern, s: string, i: nat, j: nat)
    requires i + |str| <= |s| && s[i..i + |str|] == str && Matches(next, s, i + |str|, j)
    ensures Matches(Lits(str, next), s, i, j)
  {
    if str != [] {
      assert s[i + 1..i + 1 + |str[1..]|] == str[1..];
      LitsIntro(str[1..], next, s, i + 1, j);
    }
  }

  lemma {:induction false} MatchesEnd(p: Pattern, s: string, i: nat, j: nat)
    requires Matches(p, s, i, j)
    ensures i <= j <= |s|
    decreases p
  {
    match p
    case Done =>
    case Char(c, next) => MatchesEnd(next, s, i + 1, j);
    case WordBoundary(next) => MatchesEnd(next, s, i, j);
    case Repeat(cls, lo, hi, next) =>
      var m: nat :| i + lo <= m <= |s| && Within(m - i, hi)
                    && AllIn(cls, s, i, m) && Matches(next, s, m, j);
      MatchesEnd(next, s, m, j);
  }

  /** Length of the longest run of cls characters starting at pos. */
  function RunLength(cls: CharClass, s: string, pos: nat): (n: nat)
    requires pos <= |s|
    ensures pos + n <= |s| && AllIn(cls, s, pos, pos + n)
    ensures pos + n < |s| ==> !InClass(cls, s[pos + n])
    decreases |s| - pos
  {
    if pos < |s| && InClass(cls, s[pos]) then 1 + RunLength(cls, s, pos + 1) else 0
  }

  function Cap(n: nat, hi: Limit): nat
  {
    if hi.AtMost? && hi.n < n then hi.n else n
  }

  /**
   * Python's backtracking match of p anchored at pos: the end of the match it
   * reports, or None. A repetition first takes as many characters as it may and
   * gives them back one at a time until the rest of the pattern matches.
   */
  function MatchAt(p: Pattern, s: string, pos: nat): (r: Option<nat>)
    requires pos <= |s|
    ensures r.Some? ==> pos <= r.value <= |s|
    decreases p, 0
  {
    match p
    case Done => Some(pos)
    case Char(c, next) => if pos < |s| && s[pos] == c then MatchAt(next, s, pos + 1) else None
    case WordBoundary(next) => if AtWordBoundary(s, pos) then MatchAt(next, s, pos) else None
    case Repeat(cls, lo, hi, next) =>
      var most := Cap(RunLength(cls, s, pos), hi);
      if most < lo then None else Backtrack(next, s, pos, lo, most)
  }

  /** Tries the repetition counts k, k-1, ..., lo in turn. */
  function Backtrack(next: Pattern, s: string, pos: nat, lo: nat, k: nat): (r: Option<nat>)
    requires lo <= k && pos + k <= |s|
    ensures r.Some? ==> pos + lo <= r.value <= |s|
    decreases next, k + 1
  {
    match MatchAt(next, s, pos + k)
    case Some(e) => Some(e)
    case None => if k == lo then None else Backtrack(next, s, pos, lo, k - 1)
  }

  /** The engine only reports real matches. */
  lemma {:induction false} MatchAtSound(p: Pattern, s: string, pos: nat)
    requires pos <= |s|
    ensures MatchAt(p, s, pos).Some? ==> Matches(p, s, pos, MatchAt(p, s, pos).value)
    decreases p, 0
  {
    match p
    case Done =>
    case Char(c, next) =>
      if pos < |s| && s[pos] == c { MatchAtSound(next, s, pos + 1); }
    case WordBoundary(next) =>
      if AtWordBoundary(s, pos) { MatchAtSound(next, s, pos); }
    case Repeat(cls, lo, hi, next) =>
      var most := Cap(RunLength(cls, s, pos), hi);
      if lo <= most { BacktrackSound(cls, lo, hi, next, s, pos, most); }
  }

  lemma {:induction false} BacktrackSound(cls: CharClass, lo: nat, hi: Limit, next: Pattern, s: string, pos: nat, k: nat)
    requires lo <= k && Within(k, hi) && pos + k <= |s| && AllIn(cls, s, pos, pos + k)
    ensures Backtrack(next, s, pos, lo, k).Some? ==>
              Matches(Repeat(cls, lo, hi, next), s, pos, Backtrack(next, s, pos, lo, k).value)
    decreases next, k + 1
  {
    MatchAtSound(next, s, pos + k);
    match MatchAt(next, s, pos + k)
    case Some(e) => RepeatIntro(cls, lo, hi, next, s, pos, pos + k, e);
    case None => if k != lo { BacktrackSound(cls, lo, hi, next, s, pos, k - 1); }
  }

  /** Backtracking is exhaustive: some match anchored at pos is always found. */
  lemma {:induction false} MatchAtComplete(p: Pattern, s: string, pos: nat, j: nat)
    requires Matches(p, s, pos, j)
    ensures MatchAt(p, s, pos).Some?
    decreases p
  {
    match p
    case Done =>
    case Char(c, next) => MatchAtComplete(next, s, pos + 1, j);
    case WordBoundary(next) => MatchAtComplete(next, s, pos, j);
    case Repeat(cls, lo, hi, next) =>
      var m: nat :| pos + lo <= m <= |s| && Within(m - pos, hi)
                    && AllIn(cls, s, pos, m) && Matches(next, s, m, j);
      var k := m - pos;
      MatchAtComplete(next, s, m, j);
      var run := RunLength(cls, s, pos);
      assert k <= run;
      BacktrackFinds(next, s, pos, lo, Cap(run, hi), k);
  }

  lemma {:induction false} BacktrackFinds(next: Pattern, s: string, pos: nat, lo: nat, k: nat, good: nat)
    requires lo <= good <= k && pos + k <= |s|
    requires MatchAt(next, s, pos + good).Some?
    ensures Backtrack(next, s, pos, lo, k).Some?
    decreases k - good
  {
    if k != good && MatchAt(next, s, pos + k).None? {
      BacktrackFinds(next, s, pos, lo, k - 1, good);
    }
  }

  /** `re.search(p, s)` is truthy: p matches somewhere at or after pos. */
  function SearchFrom(p: Pattern, s: string, pos: nat): bool
    requires pos <= |s|
    decreases |s| - pos
  {
    MatchAt(p, s, pos).Some? || (pos < |s| && SearchFrom(p, s, pos + 1))
  }

  /** The scan of `re.search` succeeds exactly when the matcher succeeds at some start. */
  function Search(p: Pattern, s: string): (r: bool)
    ensures r <==> exists i: nat :: i <= |s| && MatchAt(p, s, i).Some?
  {
    SearchFromScan(p, s, 0);
    SearchFrom(p, s, 0)
  }

  lemma SearchFromScan(p: Pattern, s: string, pos: nat)
    requires pos <= |s|
    ensures SearchFrom(p, s, pos) <==> exists i: nat :: pos <= i <= |s| && MatchAt(p, s, i).Some?
  {
    if SearchFrom(p, s, pos) {
      var i := SearchFromSound(p, s, pos);
    }
    forall i: nat | pos <= i <= |s| && MatchAt(p, s, i).Some? ensures SearchFrom(p, s, pos) {
      SearchFromFinds(p, s, pos, i);
    }
  }

  lemma {:induction false} SearchFromSound(p: Pattern, s: string, pos: nat) returns (i: nat)
    requires pos <= |s| && SearchFrom(p, s, pos)
    ensures pos <= i <= |s| && MatchAt(p, s, i).Some?
    decreases |s| - pos
  {
    if MatchAt(p, s, pos).Some? {
      i := pos;
    } else {
      i := SearchFromSound(p, s, pos + 1);
    }
  }

  lemma {:induction false} SearchFromFinds(p: Pattern, s: string, pos: nat, i: nat)
    requires pos <= i <= |s| && MatchAt(p, s, i).Some?
    ensures SearchFrom(p, s, pos)
    decreases i - pos
  {
    if pos < i { SearchFromFinds(p, s, pos + 1, i); }
  }

  /** A search succeeds exactly when some substring of s matches p. */
  lemma SearchSpec(p: Pattern, s: string)
    ensures Search(p, s) <==> exists i, j :: 0 <= i <= j <= |s| && Matches(p, s, i, j)
  {
    if Search(p, s) {
      var i: nat :| i <= |s| && MatchAt(p, s, i).Some?;
      MatchAtSound(p, s, i);
      var j := MatchAt(p, s, i).value;
      MatchesEnd(p, s, i, j);
      assert 0 <= i <= j <= |s| && Matches(p, s, i, j);
    } else {
      forall i, j | 0 <= i <= j <= |s| && Matches(p, s, i, j) ensures false {
        MatchAtComplete(p, s, i, j);
      }
    }
  }

  /** A witness match makes the search succeed. */
  lemma SearchFound(p: Pattern, s: string, i: nat, j: nat)
    requires Matches(p, s, i, j)
    ensures Search(p, s)
  {
    MatchesEnd(p, s, i, j);
    SearchSpec(p, s);
    assert 0 <= i <= j <= |s| && Matches(p, s, i, j);
  }

  /**
   * `re.findall(p, s)` for a pattern without groups, scanning from pos: each
   * match is reported and the scan resumes at its end (one further on after an
   * empty match).
   */
  function FindAllFrom(p: Pattern, s: string, pos: nat): seq<string>
    requires pos <= |s|
    decreases |s| - pos
  {
    match MatchAt(p, s, pos)
    case Some(e) =>
      [s[pos..e]] + (if e > pos then FindAllFrom(p, s, e)
                     else if pos < |s| then FindAllFrom(p, s, pos + 1)
                     else [])
    case None => if pos < |s| then FindAllFrom(p, s, pos + 1) else []
  }

  /** `re.findall(p, s)`: empty exactly when p matches at no start. */
  function FindAll(p: Pattern, s: string): (r: seq<string>)
    ensures r == [] <==> forall i: nat :: i <= |s| ==> MatchAt(p, s, i).None?
  {
    FindAllFromEmpty(p, s, 0);
    FindAllFrom(p, s, 0)
  }

  lemma {:induction false} FindAllFromEmpty(p: Pattern, s: string, pos: nat)
    requires pos <= |s|
    ensures FindAllFrom(p, s, pos) == [] <==> forall i: nat :: pos <= i <= |s| ==> MatchAt(p, s, i).None?
    decreases |s| - pos
  {
    match MatchAt(p, s, pos)
    case Some(e) =>
      assert FindAllFrom(p, s, pos)[0] == s[pos..e];
      assert !MatchAt(p, s, pos).None?;
    case None =>
      if pos < |s| {
        FindAllFromEmpty(p, s, pos + 1);
      }
  }

  /** m is the text of some match of p in s. */
  ghost predicate IsMatchIn(p: Pattern, s: string, m: string)
  {
    exists i, j :: 0 <= i <= j <= |s| && Matches(p, s, i, j) && m == s[i..j]
  }

  /** Everything findall reports is a substring of s that matches p. */
  lemma FindAllSound(p: Pattern, s: string, m: string)
    requires m in FindAll(p, s)
    ensures IsMatchIn(p, s, m)
  {
    var i := FindAllFromSound(p, s, 0, m);
    var j := MatchAt(p, s, i).value;
    MatchAtSound(p, s, i);
    assert Matches(p, s, i, j) && m == s[i..j];
  }

  lemma {:induction false} FindAllFromSound(p: Pattern, s: string, pos: nat, m: string) returns (i: nat)
    requires pos <= |s| && m in FindAllFrom(p, s, pos)
    ensures pos <= i <= |s| && MatchAt(p, s, i).Some? && m == s[i..MatchAt(p, s, i).value]
    decreases |s| - pos
  {
    match MatchAt(p, s, pos)
    case Some(e) =>
      if m == s[pos..e] {
        i := pos;
      } else if e > pos {
        i := FindAllFromSound(p, s, e, m);
      } else {
        i := FindAllFromSound(p, s, pos + 1, m);
      }
    case None =>
      i := FindAllFromSound(p, s, pos + 1, m);
  }

  /** A pattern that starts with a literal character absent from s finds nothing. */
  lemma {:induction false} FindAllFromMissingChar(c: char, next: Pattern, s: string, pos: nat)
    requires pos <= |s| && c !in s
    ensures FindAllFrom(Char(c, next), s, pos) == []
    decreases |s| - pos
  {
    if pos < |s| {
      assert s[pos] != c;
      FindAllFromMissingChar(c, next, s, pos + 1);
    }
  }

  /**
   * The scan from pos reports the match at i when no match starts in between.
   */
  lemma {:induction false} FindAllFromReaches(p: Pattern, s: string, pos: nat, i: nat)
    requires pos <= i <= |s| && MatchAt(p, s, i).Some?
    requires forall q :: pos <= q < i ==> MatchAt(p, s, q).None?
    ensures s[i..MatchAt(p, s, i).value] in FindAllFrom(p, s, pos)
    decreases i - pos
  {
    if pos < i { FindAllFromReaches(p, s, pos + 1, i); }
  }

  /** p ends with an unbounded repetition of cls and nothing after it, as `[^\s]+` does. */
  predicate EndsInRun(p: Pattern, cls: CharClass)
  {
    match p
    case Done => false
    case Char(_, next) => EndsInRun(next, cls)
    case WordBoundary(next) => EndsInRun(next, cls)
    case Repeat(c, _, hi, next) => (next == Done && hi == Unbounded && c == cls) || EndsInRun(next, cls)
  }

  /**
   * A match of a pattern ending in a greedy run stops only at the end of the
   * text or at a character outside the run's class.
   */
  lemma {:induction false} MatchAtMaximal(p: Pattern, cls: CharClass, s: string, pos: nat)
    requires pos <= |s| && EndsInRun(p, cls) && MatchAt(p, s, pos).Some?
    ensures var e := MatchAt(p, s, pos).value; e == |s| || !InClass(cls, s[e])
    decreases p, 0
  {
    match p
    case Char(c, next) => MatchAtMaximal(next, cls, s, pos + 1);
    case WordBoundary(next) => MatchAtMaximal(next, cls, s, pos);
    case Repeat(c, lo, hi, next) =>
      var run := RunLength(c, s, pos);
      if next == Done && hi == Unbounded && c == cls {
        assert MatchAt(Done, s, pos + run) == Some(pos + run);
        assert Backtrack(Done, s, pos, lo, run) == Some(pos + run);
      } else {
        BacktrackMaximal(next, cls, s, pos, lo, Cap(run, hi));
      }
  }

  lemma {:induction false} BacktrackMaximal(next: Pattern, cls: CharClass, s: string, pos: nat, lo: nat, k: nat)
    requires lo <= k && pos + k <= |s| && EndsInRun(next, cls)
    requires Backtrack(next, s, pos, lo, k).Some?
    ensures var e := Backtrack(next, s, pos, lo, k).value; e == |s| || !InClass(cls, s[e])
    decreases next, k + 1
  {
    if MatchAt(next, s, pos + k).Some? {
      MatchAtMaximal(next, cls, s, pos + k);
    } else {
      BacktrackMaximal(next, cls, s, pos, lo, k - 1);
    }
  }
}
