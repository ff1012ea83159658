/**
 * The contact extractor `extract_contacts_from_text`: phone numbers, e-mail
 * addresses and URLs found in a text, each category de-duplicated and present
 * only when something was found.
 */
module Contacts {
  import opened Regex

  /** The three keys of the result: 電話番号, メールアドレス and URL. */
  datatype Category = Phone | Email | Web

  // `0\d{1,4}-\d{1,4}-\d{4}`
  const AreaCodeNumber: Pattern :=
    Char('0', Repeat(Digit, 1, AtMost(4), Char('-',
    Repeat(Digit, 1, AtMost(4), Char('-',
    Repeat(Digit, 4, AtMost(4), Done))))))

  // `0\d{9,10}`
  const PlainNumber: Pattern := Char('0', Repeat(Digit, 9, AtMost(10), Done))

  // `\+81\d{9,10}`
  const InternationalNumber: Pattern := Char('+', Char('8', Char('1', Repeat(Digit, 9, AtMost(10), Done))))

  /** `0x0-\d{4}-\d{4}`: the mobile prefixes 090, 080 and 070. */
  function MobileNumber(x: char): Pattern
  {
    Char('0', Char(x, Char('0', Char('-',
    Repeat(Digit, 4, AtMost(4), Char('-',
    Repeat(Digit, 4, AtMost(4), Done)))))))
  }

  const PhonePatterns: seq<Pattern> :=
    [AreaCodeNumber, PlainNumber, InternationalNumber,
     MobileNumber('9'), MobileNumber('8'), MobileNumber('7')]

  // `\b[A-Za-z0-9._%+-]+@[A-Za-z0-9.-]+\.[A-Z|a-z]{2,}\b`
  const EmailPattern: Pattern :=
    WordBoundary(Repeat(EmailLocal, 1, Unbounded, Char('@',
    Repeat(EmailDomain, 1, Unbounded, Char('.',
    Repeat(TldLetter, 2, Unbounded, WordBoundary(Done)))))))

  // `[^\s]+`, the part of a URL after its scheme
  const UrlBody: Pattern := Repeat(NonSpace, 1, Unbounded, Done)

  // `https?://[^\s]+`
  const UrlPattern: Pattern :=
    Char('h', Char('t', Char('t', Char('p',
    Repeat(Only('s'), 0, AtMost(1), Char(':', Char('/', Char('/', UrlBody))))))))

  /** The patterns whose findall results make up each category. */
  function Patterns(c: Category): seq<Pattern>
  {
    match c
    case Phone => PhonePatterns
    case Email => [EmailPattern]
    case Web => [UrlPattern]
  }

  /** findall of each pattern in turn, concatenated (what `phones.extend` builds). */
  function AllMatches(ps: seq<Pattern>, text: string): seq<string>
  {
    if ps == [] then [] else AllMatches(ps[..|ps| - 1], text) + FindAll(ps[|ps| - 1], text)
  }

  /** Every match of a category, duplicates included. */
  function Found(c: Category, text: string): seq<string>
  {
    AllMatches(Patterns(c), text)
  }

  predicate NoDuplicates(s: seq<string>)
  {
    forall i, j :: 0 <= i < j < |s| ==> s[i] != s[j]
  }

  /**
   * `list(set(s))`: the distinct elements of s. Python leaves their order to
   * the set; this keeps first occurrences.
   */
  function Dedup(s: seq<string>): (r: seq<string>)
    ensures NoDuplicates(r)
    ensures forall x :: x in r <==> x in s
  {
    if s == [] then []
    else
      var rest := Dedup(s[..|s| - 1]);
      if s[|s| - 1] in rest then rest else rest + [s[|s| - 1]]
  }

  /** The entry for c is present exactly when c found something, and is then its de-duplicated matches. */
  ghost predicate Entry(contacts: map<Category, seq<string>>, c: Category, text: string)
  {
    (c in contacts <==> Found(c, text) != []) && (c in contacts ==> contacts[c] == Dedup(Found(c, text)))
  }

  /**
   * extract_contacts_from_text: the phone patterns' matches gathered in a loop,
   * then one entry per category that found anything.
   */
  method ExtractContacts(text: string) returns (contacts: map<Category, seq<string>>)
    ensures forall c :: c in contacts <==> Found(c, text) != []
    ensures forall c :: c in contacts ==>
              NoDuplicates(contacts[c]) && forall m :: m in contacts[c] <==> m in Found(c, text)
  {
    contacts := map[];

    var phones: seq<string> := [];
    for k := 0 to |PhonePatterns|
      invariant phones == AllMatches(PhonePatterns[..k], text)
    {
      assert PhonePatterns[..k + 1][..k] == PhonePatterns[..k];
      phones := phones + FindAll(PhonePatterns[k], text);
    }
    assert PhonePatterns[..|PhonePatterns|] == PhonePatterns;
    ghost var before := contacts;
    if phones != [] {
      contacts := contacts[Phone := Dedup(phones)];
    }
    PutEntry(before, contacts, Phone, phones, text);

    var emails := FindAll(EmailPattern, text);
    AllMatchesSingle(EmailPattern, text);
    before := contacts;
    if emails != [] {
      contacts := contacts[Email := Dedup(emails)];
    }
    PutEntry(before, contacts, Email, emails, text);

    var urls := FindAll(UrlPattern, text);
    AllMatchesSingle(UrlPattern, text);
    before := contacts;
    if urls != [] {
      contacts := contacts[Web := Dedup(urls)];
    }
    PutEntry(before, contacts, Web, urls, text);
    EntriesComplete(contacts, text);
  }

  /**
   * One `if found: contacts[key] = list(set(found))` step: it makes the entry
   * for c right and leaves every other entry, or its absence, as it was.
   */
  lemma PutEntry(before: map<Category, seq<string>>, after: map<Category, seq<string>>,
                 c: Category, found: seq<string>, text: string)
    requires c !in before && found == Found(c, text)
    requires after == if found != [] then before[c := Dedup(found)] else before
    ensures Entry(after, c, text)
    ensures forall d :: d != c ==> (d in after <==> d in before)
    ensures forall d :: d != c && Entry(before, d, text) ==> Entry(after, d, text)
  {
  }

  /** An entry for every category that found something, and for no other, is the whole result. */
  lemma EntriesComplete(contacts: map<Category, seq<string>>, text: string)
    requires Entry(contacts, Phone, text) && Entry(contacts, Email, text) && Entry(contacts, Web, text)
    ensures forall c :: c in contacts <==> Found(c, text) != []
    ensures forall c :: c in contacts ==>
              NoDuplicates(contacts[c]) && forall m :: m in contacts[c] <==> m in Found(c, text)
  {
    forall c
      ensures c in contacts <==> Found(c, text) != []
      ensures c in contacts ==> NoDuplicates(contacts[c]) && forall m :: m in contacts[c] <==> m in Found(c, text)
    {
      match c
      case Phone => assert Entry(contacts, Phone, text);
      case Email => assert Entry(contacts, Email, text);
      case Web => assert Entry(contacts, Web, text);
    }
  }

  /** A category with one pattern finds what that pattern's findall finds. */
  lemma AllMatchesSingle(p: Pattern, text: string)
    ensures AllMatches([p], text) == FindAll(p, text)
  {
    assert [p][..0] == [];
  }

  /** The concatenated findall results hold exactly what some single pattern found. */
  lemma {:induction false} AllMatchesUnion(ps: seq<Pattern>, text: string, m: string)
    ensures m in AllMatches(ps, text) <==> exists k :: 0 <= k < |ps| && m in FindAll(ps[k], text)
  {
    if ps != [] {
      var init := ps[..|ps| - 1];
      AllMatchesUnion(init, text, m);
      if m in AllMatches(init, text) {
        var k :| 0 <= k < |init| && m in FindAll(init[k], text);
        assert ps[k] == init[k];
      }
      if m in FindAll(ps[|ps| - 1], text) {
        assert m in AllMatches(ps, text);
      }
      forall k | 0 <= k < |ps| && m in FindAll(ps[k], text)
        ensures m in AllMatches(ps, text)
      {
        if k < |ps| - 1 { assert init[k] == ps[k]; }
      }
    }
  }

  /** The phone list is the union of the six patterns' matches. */
  lemma PhonesAreUnion(text: string, m: string)
    ensures m in Found(Phone, text) <==> exists k :: 0 <= k < 6 && m in FindAll(PhonePatterns[k], text)
  {
    AllMatchesUnion(PhonePatterns, text, m);
  }

  /** Every value of every category is the text of a real match of one of its patterns. */
  lemma FoundAreMatches(c: Category, text: string, m: string)
    requires m in Found(c, text)
    ensures exists k :: 0 <= k < |Patterns(c)| && IsMatchIn(Patterns(c)[k], text, m)
  {
    AllMatchesUnion(Patterns(c), text, m);
    var k :| 0 <= k < |Patterns(c)| && m in FindAll(Patterns(c)[k], text);
    FindAllSound(Patterns(c)[k], text, m);
  }

  /**
   * Every URL value starts with http:// or https://, contains no whitespace,
   * and runs on to the next whitespace character or the end of the text.
   */
  lemma UrlValuesShape(text: string, m: string)
    requires m in Found(Web, text)
    ensures (|m| > 7 && m[..7] == "http://") || (|m| > 8 && m[..8] == "https://")
    ensures forall q :: 0 <= q < |m| ==> !IsSpace(m[q])
    ensures exists i, e :: 0 <= i <= e <= |text| && m == text[i..e] && (e == |text| || IsSpace(text[e]))
  {
    AllMatchesSingle(UrlPattern, text);
    var i := FindAllFromSound(UrlPattern, text, 0, m);
    var e := UrlMatchEnds(text, i);
    MatchAtSound(UrlPattern, text, i);
    UrlMatchShape(text, i, e);
    SchemeOfSlice(text, i, e);
    assert m == text[i..e];
  }

  /** The scheme prefix of s[i..] carries over to the slice s[i..e]. */
  lemma SchemeOfSlice(s: string, i: nat, e: nat)
    requires i <= e <= |s|
    requires (e > i + 7 && s[i..i + 7] == "http://") || (e > i + 8 && s[i..i + 8] == "https://")
    ensures var m := s[i..e]; (|m| > 7 && m[..7] == "http://") || (|m| > 8 && m[..8] == "https://")
  {
    var m := s[i..e];
    if e > i + 7 && s[i..i + 7] == "http://" {
      assert m[..7] == s[i..i + 7];
    } else {
      assert m[..8] == s[i..i + 8];
    }
  }

  /** The matcher's URL at i runs up to whitespace or the end of the text. */
  lemma UrlMatchEnds(text: string, i: nat) returns (e: nat)
    requires i <= |text| && MatchAt(UrlPattern, text, i).Some?
    ensures e == MatchAt(UrlPattern, text, i).value
    ensures i <= e <= |text| && (e == |text| || IsSpace(text[e]))
  {
    e := MatchAt(UrlPattern, text, i).value;
    assert EndsInRun(UrlBody, NonSpace);
    MatchAtMaximal(UrlPattern, NonSpace, text, i);
  }

  lemma UrlMatchShape(s: string, i: nat, j: nat)
    requires i <= j <= |s| && Matches(UrlPattern, s, i, j)
    ensures (j > i + 7 && s[i..i + 7] == "http://") || (j > i + 8 && s[i..i + 8] == "https://")
    ensures forall q :: i <= q < j ==> !IsSpace(s[q])
  {
    UrlPatternSpelled();
    var m := UrlMatchParts("http", "://", s, i, j);
    if m == i + 4 {
      assert s[i..i + 7] == s[i..i + 4] + s[m..m + 3];
    } else {
      HttpsSpelled(s, i, m);
    }
    forall q | i <= q < m + 3 ensures !IsSpace(s[q]) {
      if q < i + 4 {
        assert s[q] == s[i..i + 4][q - i];
      } else if q >= m {
        assert s[q] == s[m..m + 3][q - m];
      }
    }
  }

  /** `http`, an `s` and `://` spell `https://`. */
  lemma HttpsSpelled(s: string, i: nat, m: nat)
    requires i + 8 <= |s| && m == i + 5 && s[i..i + 4] == "http" && s[i + 4] == 's' && s[m..m + 3] == "://"
    ensures s[i..i + 8] == "https://"
  {
    assert s[i..i + 8] == s[i..i + 4] + s[i + 4..i + 5] + s[i + 5..i + 8];
  }

  /**
   * The pieces of a match of `pre s? mid [^\s]+`: the literals, the optional s
   * ending at m, and a whitespace-free rest.
   */
  lemma UrlMatchParts(pre: string, mid: string, s: string, i: nat, j: nat) returns (m: nat)
    requires Matches(Lits(pre, Repeat(Only('s'), 0, AtMost(1), Lits(mid, UrlBody))), s, i, j)
    ensures i + |pre| <= m <= i + |pre| + 1 && m + |mid| < j <= |s|
    ensures s[i..i + |pre|] == pre && s[m..m + |mid|] == mid
    ensures m == i + |pre| + 1 ==> s[i + |pre|] == 's'
    ensures forall q :: m + |mid| <= q < j ==> !IsSpace(s[q])
  {
    var rest := Lits(mid, UrlBody);
    LitsElim(pre, Repeat(Only('s'), 0, AtMost(1), rest), s, i, j);
    m := RepeatElim(Only('s'), 0, AtMost(1), rest, s, i + |pre|, j);
    LitsElim(mid, UrlBody, s, m, j);
    var e := RepeatElim(NonSpace, 1, Unbounded, Done, s, m + |mid|, j);
    assert e == j;
    forall q | m + |mid| <= q < j ensures !IsSpace(s[q]) {
      assert InClass(NonSpace, s[q]);
    }
  }

  /** Every phone value starts with a 0 or with +81. */
  lemma PhoneValuesShape(text: string, m: string)
    requires m in Found(Phone, text)
    ensures (|m| > 0 && m[0] == '0') || (|m| >= 3 && m[..3] == "+81")
  {
    FoundAreMatches(Phone, text, m);
    var k :| 0 <= k < 6 && IsMatchIn(PhonePatterns[k], text, m);
    var prefix, rest := PhonePrefix(k);
    MatchStartsWith(prefix, rest, text, m);
    if prefix == "+81" {
      assert m[..3] == prefix;
    } else {
      assert m[0] == m[..|prefix|][0];
    }
  }

  /** The text of a match of a literal-headed pattern starts with the literal. */
  lemma MatchStartsWith(prefix: string, rest: Pattern, s: string, m: string)
    requires IsMatchIn(Lits(prefix, rest), s, m)
    ensures |prefix| <= |m| && m[..|prefix|] == prefix
  {
    var i, j :| 0 <= i <= j <= |s| && Matches(Lits(prefix, rest), s, i, j) && m == s[i..j];
    LitsElim(prefix, rest, s, i, j);
    MatchesEnd(rest, s, i + |prefix|, j);
    assert m[..|prefix|] == s[i..i + |prefix|];
  }

  lemma UrlPatternSpelled()
    ensures UrlPattern == Lits("http", Repeat(Only('s'), 0, AtMost(1), Lits("://", UrlBody)))
  {
  }

  /** The literal prefix each phone pattern starts with. */
  lemma PhonePrefix(k: nat) returns (prefix: string, rest: Pattern)
    requires k < 6
    ensures PhonePatterns[k] == Lits(prefix, rest)
    ensures (|prefix| > 0 && prefix[0] == '0') || prefix == "+81"
  {
    match k
    case 0 =>
      prefix, rest := "0", AreaCodeNumber.next;
    case 1 =>
      prefix, rest := "0", PlainNumber.next;
    case 2 =>
      prefix, rest := "+81", Repeat(Digit, 9, AtMost(10), Done);
    case 3 =>
      prefix, rest := "090-", MobileNumber('9').next.next.next.next;
    case 4 =>
      prefix, rest := "080-", MobileNumber('8').next.next.next.next;
    case 5 =>
      prefix, rest := "070-", MobileNumber('7').next.next.next.next;
  }

  /**
   * An e-mail address between word boundaries at i and j: a non-empty local
   * part s[i..a], the @ at a, a non-empty domain s[a+1..d], a dot at d and at
   * least two top-level-domain letters s[d+1..j].
   */
  predicate EmailAt(s: string, i: nat, a: nat, d: nat, j: nat)
  {
    i < a && a + 1 < d && d + 3 <= j <= |s|
    && AtWordBoundary(s, i) && AllIn(EmailLocal, s, i, a) && s[a] == '@'
    && AllIn(EmailDomain, s, a + 1, d) && s[d] == '.'
    && AllIn(TldLetter, s, d + 1, j) && AtWordBoundary(s, j)
  }

  function EmailTail(): Pattern
  {
    Repeat(EmailDomain, 1, Unbounded, Char('.', Repeat(TldLetter, 2, Unbounded, WordBoundary(Done))))
  }

  /** A match of the e-mail pattern is an address laid out as EmailAt says. */
  lemma EmailSplit(s: string, i: nat, j: nat) returns (a: nat, d: nat)
    requires Matches(EmailPattern, s, i, j)
    ensures EmailAt(s, i, a, d, j)
  {
    var tld := Repeat(TldLetter, 2, Unbounded, WordBoundary(Done));
    assert EmailPattern == WordBoundary(Repeat(EmailLocal, 1, Unbounded, Char('@', EmailTail())));
    assert EmailTail() == Repeat(EmailDomain, 1, Unbounded, Char('.', tld));
    a := RunSepElim(EmailLocal, '@', EmailTail(), s, i, j);
    d := RunSepElim(EmailDomain, '.', tld, s, a + 1, j);
    var e := RepeatElim(TldLetter, 2, Unbounded, WordBoundary(Done), s, d + 1, j);
  }

  /** An address laid out as EmailAt says matches the e-mail pattern. */
  lemma EmailBuild(s: string, i: nat, a: nat, d: nat, j: nat)
    requires EmailAt(s, i, a, d, j)
    ensures Matches(EmailPattern, s, i, j)
  {
    var tld := Repeat(TldLetter, 2, Unbounded, WordBoundary(Done));
    RepeatIntro(TldLetter, 2, Unbounded, WordBoundary(Done), s, d + 1, j, j);
    RunSepIntro(EmailDomain, '.', tld, s, a + 1, d, j);
    assert EmailTail() == Repeat(EmailDomain, 1, Unbounded, Char('.', tld));
    RunSepIntro(EmailLocal, '@', EmailTail(), s, i, a, j);
    assert EmailPattern == WordBoundary(Repeat(EmailLocal, 1, Unbounded, Char('@', EmailTail())));
  }

  /** Every e-mail value is an address standing between word boundaries of the text. */
  lemma EmailValuesShape(text: string, m: string)
    requires m in Found(Email, text)
    ensures exists i: nat, a: nat, d: nat, j: nat :: EmailAt(text, i, a, d, j) && m == text[i..j]
  {
    FoundAreMatches(Email, text, m);
    var i, j :| 0 <= i <= j <= |text| && Matches(EmailPattern, text, i, j) && m == text[i..j];
    var a, d := EmailSplit(text, i, j);
  }

  /** `0x0-dddd-dddd` stands at position i of s. */
  ghost predicate MobileAt(x: char, s: string, i: nat)
  {
    i + 13 <= |s| && s[i] == '0' && s[i + 1] == x && s[i + 2] == '0' && s[i + 3] == '-' && s[i + 8] == '-'
    && forall q :: i + 4 <= q < i + 8 || i + 9 <= q < i + 13 ==> IsDigit(s[q])
  }

  lemma MobileIntro(x: char, s: string, i: nat)
    requires MobileAt(x, s, i)
    ensures Matches(MobileNumber(x), s, i, i + 13)
  {
    var t2 := Repeat(Digit, 4, AtMost(4), Done);
    RepeatIntro(Digit, 4, AtMost(4), Done, s, i + 9, i + 13, i + 13);
    var t1 := Repeat(Digit, 4, AtMost(4), Char('-', t2));
    RepeatIntro(Digit, 4, AtMost(4), Char('-', t2), s, i + 4, i + 8, i + 13);
    assert Matches(Char('-', t1), s, i + 3, i + 13);
    assert Matches(Char('0', Char('-', t1)), s, i + 2, i + 13);
    assert Matches(Char(x, Char('0', Char('-', t1))), s, i + 1, i + 13);
  }

  /** Every match of a mobile pattern is exactly 13 characters long. */
  lemma MobileMatchLength(x: char, s: string, i: nat, j: nat)
    requires Matches(MobileNumber(x), s, i, j)
    ensures j == i + 13
  {
    var groups := Repeat(Digit, 4, AtMost(4), Char('-', Repeat(Digit, 4, AtMost(4), Done)));
    assert MobileNumber(x) == Char('0', Char(x, Char('0', Char('-', groups))));
    CharElim('0', Char(x, Char('0', Char('-', groups))), s, i, j);
    CharElim(x, Char('0', Char('-', groups)), s, i + 1, j);
    CharElim('0', Char('-', groups), s, i + 2, j);
    CharElim('-', groups, s, i + 3, j);
    GroupsLength(s, i + 4, j);
  }

  /** `\d{4}-\d{4}` matches exactly nine characters. */
  lemma GroupsLength(s: string, i: nat, j: nat)
    requires Matches(Repeat(Digit, 4, AtMost(4), Char('-', Repeat(Digit, 4, AtMost(4), Done))), s, i, j)
    ensures j == i + 9
  {
    var t2 := Repeat(Digit, 4, AtMost(4), Done);
    var m := RepeatElim(Digit, 4, AtMost(4), Char('-', t2), s, i, j);
    CharElim('-', t2, s, m, j);
    var e := RepeatElim(Digit, 4, AtMost(4), Done, s, m + 1, j);
  }

  /**
   * A 090 mobile number is reported among the phone values when no '0' comes
   * before it (so no earlier 090 match can swallow it).
   */
  lemma MobileFound(text: string, i: nat)
    requires MobileAt('9', text, i)
    requires forall q :: 0 <= q < i ==> text[q] != '0'
    ensures text[i..i + 13] in Found(Phone, text)
  {
    var p := MobileNumber('9');
    MobileIntro('9', text, i);
    MatchAtComplete(p, text, i, i + 13);
    MatchAtSound(p, text, i);
    MobileMatchLength('9', text, i, MatchAt(p, text, i).value);
    FindAllFromReaches(p, text, 0, i);
    assert PhonePatterns[3] == p;
    PhonesAreUnion(text, text[i..i + 13]);
  }

  /** No URL is reported from a text without the letter h. */
  lemma NoUrlWithoutH(text: string)
    requires 'h' !in text
    ensures Found(Web, text) == []
  {
    FindAllFromMissingChar('h', UrlPattern.next, text, 0);
    AllMatchesSingle(UrlPattern, text);
  }

  const SampleNumber := "090-1234-5678"
  const SampleText := "call " + SampleNumber + " or email foo@bar.com"

  /** The sample message yields a phone entry with its mobile number and no URL entry. */
  lemma SampleMessage()
    ensures SampleNumber in Found(Phone, SampleText)
    ensures Found(Web, SampleText) == []
  {
    SampleNumberAt();
    MobileFound(SampleText, 5);
    SampleHasNoH();
    NoUrlWithoutH(SampleText);
  }

  lemma SampleNumberAt()
    ensures MobileAt('9', SampleText, 5) && SampleText[5..18] == SampleNumber
    ensures forall q :: 0 <= q < 5 ==> SampleText[q] != '0'
  {
    assert SampleText[5..18] == SampleNumber;
  }

  lemma SampleHasNoH()
    ensures 'h' !in SampleText
  {
  }
}
