/**
 * The heuristic URL scorer `check_url_safety` and the score bands the URL tab
 * colours its result with.
 *
 * `urlparse` and the live TLS probe are inputs: the scorer receives the URL
 * already split into scheme and network location (or the parse failure), the
 * outcome of the certificate probe, and the current time.
 */
module UrlSafety {
  import opened Regex

  /** The scheme and netloc components that `urlparse` produced. */
  datatype UrlParts = UrlParts(scheme: string, netloc: string)

  /** Result of `urlparse(url)`: the parts, or the exception it raised. */
  datatype Parse = Parsed(parts: UrlParts) | ParseFailed(detail: string)

  /**
   * Result of connecting to netloc on port 443: either any failure (connection,
   * handshake, missing or unparsable notAfter field), or the certificate's
   * notAfter instant, on the same time line as `now`.
   */
  datatype CertProbe = Unreachable | Retrieved(notAfter: int)

  datatype CertStatus = Unavailable | Expired | Valid

  datatype Warning =
    | InvalidFormat
    | NotHttps
    | SuspiciousDomain(netloc: string)
    | CertUnavailable
    | CertExpired
    | CheckError(detail: string)

  datatype Assessment = Assessment(score: int, warnings: seq<Warning>)

  /** The text the scorer appends for each warning. */
  function Message(w: Warning): string
  {
    match w
    case InvalidFormat => "⚠️ 無効なURL形式"
    case NotHttps => "⚠️ HTTPSではありません"
    case SuspiciousDomain(netloc) => "⚠️ 疑わしいドメイン形式: " + netloc
    case CertUnavailable => "⚠️ SSL証明書の確認ができません"
    case CertExpired => "⚠️ SSL証明書が期限切れ"
    case CheckError(detail) => "❌ URLチェックエラー: " + detail
  }

  /** Points each warning costs; a CheckError instead replaces the score by 0. */
  function Deduction(w: Warning): nat
  {
    match w
    case InvalidFormat => 30
    case NotHttps => 20
    case SuspiciousDomain(_) => 25
    case CertUnavailable => 15
    case CertExpired => 40
    case CheckError(_) => 0
  }

  /** Position of each kind of warning in the order the scorer checks them. */
  function Rank(w: Warning): nat
  {
    match w
    case InvalidFormat => 0
    case NotHttps => 1
    case SuspiciousDomain(_) => 2
    case CertUnavailable => 3
    case CertExpired => 3
    case CheckError(_) => 4
  }

  function TotalDeduction(ws: seq<Warning>): nat
  {
    if ws == [] then 0 else Deduction(ws[0]) + TotalDeduction(ws[1..])
  }

  // `[0-9]+\.[0-9]+\.[0-9]+\.[0-9]+`
  const DottedQuad: Pattern :=
    Repeat(AsciiDigit, 1, Unbounded, Char('.',
    Repeat(AsciiDigit, 1, Unbounded, Char('.',
    Repeat(AsciiDigit, 1, Unbounded, Char('.',
    Repeat(AsciiDigit, 1, Unbounded, Done)))))))

  // `[a-z0-9]+-[a-z0-9]+-[a-z0-9]+\.`
  const HyphenatedLabels: Pattern :=
    Repeat(LowerAlnum, 1, Unbounded, Char('-',
    Repeat(LowerAlnum, 1, Unbounded, Char('-',
    Repeat(LowerAlnum, 1, Unbounded, Char('.', Done))))))

  // `[0-9]{8,}`
  const LongDigitRun: Pattern := Repeat(AsciiDigit, 8, Unbounded, Done)

  const SuspiciousPatterns: seq<Pattern> := [DottedQuad, HyphenatedLabels, LongDigitRun]

  /** Some suspicious pattern occurs somewhere in the network location. */
  predicate SuspiciousHost(netloc: string)
  {
    exists k :: 0 <= k < |SuspiciousPatterns| && Search(SuspiciousPatterns[k], netloc)
  }

  predicate Malformed(parts: UrlParts)
  {
    parts.scheme == "" || parts.netloc == ""
  }

  /** How the probe outcome reads at time now: expired strictly before now. */
  function Status(probe: CertProbe, now: int): CertStatus
  {
    match probe
    case Unreachable => Unavailable
    case Retrieved(notAfter) => if notAfter < now then Expired else Valid
  }

  /** The warnings of a URL that parsed, in the order the checks run. */
  function Warnings(parts: UrlParts, status: CertStatus): seq<Warning>
  {
    FormatWarnings(parts) + SchemeWarnings(parts) + DomainWarnings(parts) + CertWarnings(status)
  }

  function FormatWarnings(parts: UrlParts): seq<Warning>
  {
    if Malformed(parts) then [InvalidFormat] else []
  }

  function SchemeWarnings(parts: UrlParts): seq<Warning>
  {
    if parts.scheme != "https" then [NotHttps] else []
  }

  function DomainWarnings(parts: UrlParts): seq<Warning>
  {
    if SuspiciousHost(parts.netloc) then [SuspiciousDomain(parts.netloc)] else []
  }

  function CertWarnings(status: CertStatus): seq<Warning>
  {
    match status
    case Unavailable => [CertUnavailable]
    case Expired => [CertExpired]
    case Valid => []
  }

  /** The running score of a URL that parsed, before the clamp at 0. */
  function Unclamped(parts: UrlParts, status: CertStatus): int
  {
    100
    - (if Malformed(parts) then 30 else 0)
    - (if parts.scheme != "https" then 20 else 0)
    - (if SuspiciousHost(parts.netloc) then 25 else 0)
    - (match status
       case Unavailable => 15
       case Expired => 40
       case Valid => 0)
  }

  function Clamp(score: int): int
  {
    if score < 0 then 0 else score
  }

  /**
   * What check_url_safety returns: a score within 0..100 which, for a URL that
   * parsed, is 100 minus what the warnings cost, clamped at 0; and score 0 with
   * one error warning when urlparse raised.
   */
  function Assess(parse: Parse, probe: CertProbe, now: int): (a: Assessment)
    ensures 0 <= a.score <= 100
    ensures parse.Parsed? ==> a.score == Clamp(100 - TotalDeduction(a.warnings))
    ensures parse.ParseFailed? ==> a == Assessment(0, [CheckError(parse.detail)])
  {
    match parse
    case ParseFailed(detail) => Assessment(0, [CheckError(detail)])
    case Parsed(parts) =>
      var status := Status(probe, now);
      DeductionPerWarning(parts, status);
      Assessment(Clamp(Unclamped(parts, status)), Warnings(parts, status))
  }

  /**
   * check_url_safety, step by step: a running score from 100, a warning list,
   * the three suspicious patterns tried in order until the first that occurs.
   */
  method CheckUrlSafety(parse: Parse, probe: CertProbe, now: int) returns (score: int, warnings: seq<Warning>)
    ensures Assessment(score, warnings) == Assess(parse, probe, now)
    ensures 0 <= score <= 100
  {
    score := 100;
    warnings := [];
    match parse {
      case ParseFailed(detail) =>
        warnings := warnings + [CheckError(detail)];
        score := 0;
      case Parsed(parts) =>
        if parts.scheme == "" || parts.netloc == "" {
          warnings := warnings + [InvalidFormat];
          score := score - 30;
        }
        if parts.scheme != "https" {
          warnings := warnings + [NotHttps];
          score := score - 20;
        }
        assert warnings == FormatWarnings(parts) + SchemeWarnings(parts);
        ghost var before, scoreBefore := warnings, score;
        var k := 0;
        while k < |SuspiciousPatterns|
          invariant 0 <= k <= |SuspiciousPatterns|
          invariant warnings == before && score == scoreBefore
          invariant forall q :: 0 <= q < k ==> !Search(SuspiciousPatterns[q], parts.netloc)
        {
          if Search(SuspiciousPatterns[k], parts.netloc) {
            warnings := warnings + [SuspiciousDomain(parts.netloc)];
            score := score - 25;
            break;
          }
          k := k + 1;
        }
        SuspiciousLoopExit(parts.netloc, k);
        assert warnings == before + DomainWarnings(parts);
        assert score == scoreBefore - (if SuspiciousHost(parts.netloc) then 25 else 0);
        match probe {
          case Unreachable =>
            warnings := warnings + [CertUnavailable];
            score := score - 15;
          case Retrieved(notAfter) =>
            if notAfter < now {
              warnings := warnings + [CertExpired];
              score := score - 40;
            }
        }
        assert warnings == Warnings(parts, Status(probe, now));
        assert score == Unclamped(parts, Status(probe, now));
    }
    score := if score < 0 then 0 else score;
  }

  /**
   * The suspicious-pattern loop leaves at k: it stopped early exactly when the
   * netloc is suspicious.
   */
  lemma SuspiciousLoopExit(netloc: string, k: nat)
    requires k <= |SuspiciousPatterns|
    requires k < |SuspiciousPatterns| ==> Search(SuspiciousPatterns[k], netloc)
    requires forall q :: 0 <= q < k ==> !Search(SuspiciousPatterns[q], netloc)
    ensures k < |SuspiciousPatterns| <==> SuspiciousHost(netloc)
  {
  }

  lemma {:induction false} TotalDeductionAppend(a: seq<Warning>, b: seq<Warning>)
    ensures TotalDeduction(a + b) == TotalDeduction(a) + TotalDeduction(b)
  {
    if a == [] {
      assert a + b == b;
    } else {
      assert (a + b)[1..] == a[1..] + b;
      TotalDeductionAppend(a[1..], b);
    }
  }

  /**
   * One deduction per warning: the unclamped score of a URL that parsed is 100
   * minus what its warnings cost.
   */
  lemma DeductionPerWarning(parts: UrlParts, status: CertStatus)
    ensures Unclamped(parts, status) == 100 - TotalDeduction(Warnings(parts, status))
  {
    var a, b, c, d := FormatWarnings(parts), SchemeWarnings(parts), DomainWarnings(parts), CertWarnings(status);
    TotalDeductionAppend(a, b);
    TotalDeductionAppend(a + b, c);
    TotalDeductionAppend(a + b + c, d);
    assert TotalDeduction(a) == if Malformed(parts) then 30 else 0;
    assert TotalDeduction(b) == if parts.scheme != "https" then 20 else 0;
    assert TotalDeduction(c) == if SuspiciousHost(parts.netloc) then 25 else 0;
    assert TotalDeduction(d) == match status case Unavailable => 15 case Expired => 40 case Valid => 0;
  }

  /** The warnings come in check order, one of each kind at most: four at most. */
  lemma WarningsOrdered(parts: UrlParts, status: CertStatus)
    ensures var ws := Warnings(parts, status);
      |ws| <= 4 &&
      forall i, j :: 0 <= i < j < |ws| ==> Rank(ws[i]) < Rank(ws[j])
  {
  }

  /**
   * The suspicious-domain warning appears at most once, exactly when some
   * pattern occurs in the netloc, however many of the patterns occur.
   */
  lemma SuspiciousAtMostOnce(parts: UrlParts, status: CertStatus)
    ensures var ws := Warnings(parts, status);
      (forall i, j :: 0 <= i < j < |ws| ==> !(ws[i].SuspiciousDomain? && ws[j].SuspiciousDomain?))
      && ((exists i :: 0 <= i < |ws| && ws[i].SuspiciousDomain?) <==> SuspiciousHost(parts.netloc))
  {
    var ws := Warnings(parts, status);
    WarningsOrdered(parts, status);
    if SuspiciousHost(parts.netloc) {
      var i := |if Malformed(parts) then [InvalidFormat] else []|
               + |if parts.scheme != "https" then [NotHttps] else []|;
      assert ws[i].SuspiciousDomain?;
    }
  }

  /**
   * The malformed and non-https checks are independent: a URL without a scheme
   * gets both warnings, first and second, and loses 50 points for them.
   */
  lemma MissingSchemeLosesBoth(parts: UrlParts, status: CertStatus)
    requires parts.scheme == ""
    ensures var ws := Warnings(parts, status);
      |ws| >= 2 && ws[0] == InvalidFormat && ws[1] == NotHttps
      && Unclamped(parts, status) <= 50
  {
  }

  /**
   * Exactly one certificate outcome applies: unreachable costs 15 with one
   * warning, expired (notAfter strictly before now) 40 with one warning, valid
   * nothing.
   */
  lemma CertificateOutcome(parts: UrlParts, probe: CertProbe, now: int)
    ensures var ws := Warnings(parts, Status(probe, now));
      var expired := probe.Retrieved? && probe.notAfter < now;
      (CertUnavailable in ws <==> probe.Unreachable?)
      && (CertExpired in ws <==> expired)
      && Unclamped(parts, Status(probe, now))
         == Unclamped(parts, Valid) - (if probe.Unreachable? then 15 else if expired then 40 else 0)
  {
    var ws := Warnings(parts, Status(probe, now));
    var head := Warnings(parts, Valid);
    assert ws == head + ws[|head|..];
    assert CertUnavailable !in head && CertExpired !in head;
  }

  /**
   * A URL scores a clean (100, []) exactly when it parses, is https with a
   * scheme and netloc, has a netloc matching no suspicious pattern and a
   * certificate that has not expired.
   */
  lemma CleanExactly(parse: Parse, probe: CertProbe, now: int)
    ensures Assess(parse, probe, now) == Assessment(100, [])
        <==> parse.Parsed? && parse.parts.scheme == "https" && parse.parts.netloc != ""
             && !SuspiciousHost(parse.parts.netloc)
             && probe.Retrieved? && !(probe.notAfter < now)
  {
    if parse.Parsed? {
      var parts, status := parse.parts, Status(probe, now);
      if Warnings(parts, status) == [] {
        assert !Malformed(parts) && parts.scheme == "https";
      }
    }
  }

  /**
   * When urlparse raises, nothing has been appended yet: the result is score 0
   * with the single error warning.
   */
  lemma ParseFailureResult(detail: string, probe: CertProbe, now: int)
    ensures var a := Assess(ParseFailed(detail), probe, now);
      a.score == 0 && |a.warnings| == 1 && Message(a.warnings[0]) == "❌ URLチェックエラー: " + detail
  {
  }

  /**
   * The worst a URL that parsed can do: no scheme (30 and 20), a suspicious
   * netloc (25) and an expired certificate (40) cost 115 points, and the score
   * clamps to 0. The unavailable and expired deductions never apply together.
   */
  lemma WorstCaseClampsToZero(netloc: string, now: int, notAfter: int)
    requires SuspiciousHost(netloc) && notAfter < now
    ensures Unclamped(UrlParts("", netloc), Expired) == -15
    ensures Assess(Parsed(UrlParts("", netloc)), Retrieved(notAfter), now).score == 0
  {
  }

  /** Distinct warnings read differently, so the displayed list determines the deductions. */
  lemma MessageInjective(a: Warning, b: Warning)
    requires a != b
    ensures Message(a) != Message(b)
  {
    if a.SuspiciousDomain? && b.SuspiciousDomain? {
      var n := |"⚠️ 疑わしいドメイン形式: "|;
      assert Message(a)[n..] == a.netloc && Message(b)[n..] == b.netloc;
    } else if a.CheckError? && b.CheckError? {
      var n := |"❌ URLチェックエラー: "|;
      assert Message(a)[n..] == a.detail && Message(b)[n..] == b.detail;
    } else if a.CheckError? || b.CheckError? {
      assert Message(a)[0] != Message(b)[0];
    } else if Rank(a) == 3 && Rank(b) == 3 {
      assert Message(a)[9] != Message(b)[9];
    } else {
      assert Message(a)[3] != Message(b)[3];
    }
  }

  /** Eight ASCII digits in a row, starting at i. */
  predicate DigitRunAt(s: string, i: nat)
  {
    i + 8 <= |s| && forall q :: i <= q < i + 8 ==> IsAsciiDigit(s[q])
  }

  /** `[0-9]{8,}` occurs in s exactly when eight ASCII digits stand in a row. */
  lemma LongDigitRunSpec(s: string)
    ensures Search(LongDigitRun, s) <==> exists i: nat :: DigitRunAt(s, i)
  {
    SearchSpec(LongDigitRun, s);
    if Search(LongDigitRun, s) {
      var i, j :| 0 <= i <= j <= |s| && Matches(LongDigitRun, s, i, j);
      var m: nat :| i + 8 <= m <= |s| && Within(m - i, Unbounded)
                    && AllIn(AsciiDigit, s, i, m) && Matches(Done, s, m, j);
      assert DigitRunAt(s, i);
    } else {
      forall i: nat | DigitRunAt(s, i) ensures false {
        RepeatIntro(AsciiDigit, 8, Unbounded, Done, s, i, i + 8, i + 8);
        SearchFound(LongDigitRun, s, i, i + 8);
      }
    }
  }

  /**
   * `[0-9]+\.[0-9]+\.[0-9]+\.[0-9]+` at i: the non-empty digit runs s[i..a],
   * s[a+1..b], s[b+1..c] and s[c+1..d], separated by dots at a, b and c.
   */
  predicate DottedQuadAt(s: string, i: nat, a: nat, b: nat, c: nat, d: nat)
  {
    i < a && a + 1 < b && b + 1 < c && c + 1 < d <= |s|
    && AllIn(AsciiDigit, s, i, a) && s[a] == '.'
    && AllIn(AsciiDigit, s, a + 1, b) && s[b] == '.'
    && AllIn(AsciiDigit, s, b + 1, c) && s[c] == '.'
    && AllIn(AsciiDigit, s, c + 1, d)
  }

  /** The pattern's last three groups, as the tail after the first dot. */
  function DottedTail(): Pattern
  {
    Repeat(AsciiDigit, 1, Unbounded, Char('.',
    Repeat(AsciiDigit, 1, Unbounded, Char('.',
    Repeat(AsciiDigit, 1, Unbounded, Done)))))
  }

  /** The IPv4-like pattern is found exactly when four dot-separated digit runs occur. */
  lemma DottedQuadSpec(s: string)
    ensures Search(DottedQuad, s)
        <==> exists i: nat, a: nat, b: nat, c: nat, d: nat :: DottedQuadAt(s, i, a, b, c, d)
  {
    SearchSpec(DottedQuad, s);
    if Search(DottedQuad, s) {
      var i, j :| 0 <= i <= j <= |s| && Matches(DottedQuad, s, i, j);
      var a, b, c, d := DottedQuadSplit(s, i, j);
    } else {
      forall i: nat, a: nat, b: nat, c: nat, d: nat | DottedQuadAt(s, i, a, b, c, d) ensures false {
        DottedQuadBuild(s, i, a, b, c, d);
        SearchFound(DottedQuad, s, i, d);
      }
    }
  }

  /** A match of the IPv4-like pattern has its four runs and three dots. */
  lemma DottedQuadSplit(s: string, i: nat, j: nat) returns (a: nat, b: nat, c: nat, d: nat)
    requires Matches(DottedQuad, s, i, j)
    ensures DottedQuadAt(s, i, a, b, c, d) && d == j
  {
    var last := Repeat(AsciiDigit, 1, Unbounded, Done);
    var t3 := Repeat(AsciiDigit, 1, Unbounded, Char('.', last));
    assert DottedQuad == Repeat(AsciiDigit, 1, Unbounded, Char('.', DottedTail()));
    assert DottedTail() == Repeat(AsciiDigit, 1, Unbounded, Char('.', t3));
    a := RunSepElim(AsciiDigit, '.', DottedTail(), s, i, j);
    b := RunSepElim(AsciiDigit, '.', t3, s, a + 1, j);
    c := RunSepElim(AsciiDigit, '.', last, s, b + 1, j);
    d := RepeatElim(AsciiDigit, 1, Unbounded, Done, s, c + 1, j);
  }

  /** Four dot-separated digit runs match the IPv4-like pattern. */
  lemma DottedQuadBuild(s: string, i: nat, a: nat, b: nat, c: nat, d: nat)
    requires DottedQuadAt(s, i, a, b, c, d)
    ensures Matches(DottedQuad, s, i, d)
  {
    var last := Repeat(AsciiDigit, 1, Unbounded, Done);
    var t3 := Repeat(AsciiDigit, 1, Unbounded, Char('.', last));
    RepeatIntro(AsciiDigit, 1, Unbounded, Done, s, c + 1, d, d);
    RunSepIntro(AsciiDigit, '.', last, s, b + 1, c, d);
    RunSepIntro(AsciiDigit, '.', t3, s, a + 1, b, d);
    assert DottedTail() == Repeat(AsciiDigit, 1, Unbounded, Char('.', t3));
    RunSepIntro(AsciiDigit, '.', DottedTail(), s, i, a, d);
    assert DottedQuad == Repeat(AsciiDigit, 1, Unbounded, Char('.', DottedTail()));
  }

  /**
   * `[a-z0-9]+-[a-z0-9]+-[a-z0-9]+\.` at i: the non-empty label runs s[i..a],
   * s[a+1..b] and s[b+1..c], hyphens at a and b, and a dot at c.
   */
  predicate HyphenatedAt(s: string, i: nat, a: nat, b: nat, c: nat)
  {
    i < a && a + 1 < b && b + 1 < c < |s|
    && AllIn(LowerAlnum, s, i, a) && s[a] == '-'
    && AllIn(LowerAlnum, s, a + 1, b) && s[b] == '-'
    && AllIn(LowerAlnum, s, b + 1, c) && s[c] == '.'
  }

  /** The pattern's last two labels and the dot, as the tail after the first hyphen. */
  function HyphenatedTail(): Pattern
  {
    Repeat(LowerAlnum, 1, Unbounded, Char('-',
    Repeat(LowerAlnum, 1, Unbounded, Char('.', Done))))
  }

  /** The hyphen pattern is found exactly when three hyphen-joined labels end in a dot. */
  lemma HyphenatedSpec(s: string)
    ensures Search(HyphenatedLabels, s)
        <==> exists i: nat, a: nat, b: nat, c: nat :: HyphenatedAt(s, i, a, b, c)
  {
    SearchSpec(HyphenatedLabels, s);
    if Search(HyphenatedLabels, s) {
      var i, j :| 0 <= i <= j <= |s| && Matches(HyphenatedLabels, s, i, j);
      var a, b, c := HyphenatedSplit(s, i, j);
    } else {
      forall i: nat, a: nat, b: nat, c: nat | HyphenatedAt(s, i, a, b, c) ensures false {
        HyphenatedBuild(s, i, a, b, c);
        SearchFound(HyphenatedLabels, s, i, c + 1);
      }
    }
  }

  /** A match of the hyphen pattern has its three labels, two hyphens and the dot. */
  lemma HyphenatedSplit(s: string, i: nat, j: nat) returns (a: nat, b: nat, c: nat)
    requires Matches(HyphenatedLabels, s, i, j)
    ensures HyphenatedAt(s, i, a, b, c) && j == c + 1
  {
    var t3 := Repeat(LowerAlnum, 1, Unbounded, Char('.', Done));
    assert HyphenatedLabels == Repeat(LowerAlnum, 1, Unbounded, Char('-', HyphenatedTail()));
    assert HyphenatedTail() == Repeat(LowerAlnum, 1, Unbounded, Char('-', t3));
    a := RunSepElim(LowerAlnum, '-', HyphenatedTail(), s, i, j);
    b := RunSepElim(LowerAlnum, '-', t3, s, a + 1, j);
    c := RunSepElim(LowerAlnum, '.', Done, s, b + 1, j);
  }

  /** Three hyphen-joined labels and a dot match the hyphen pattern. */
  lemma HyphenatedBuild(s: string, i: nat, a: nat, b: nat, c: nat)
    requires HyphenatedAt(s, i, a, b, c)
    ensures Matches(HyphenatedLabels, s, i, c + 1)
  {
    var t3 := Repeat(LowerAlnum, 1, Unbounded, Char('.', Done));
    RunSepIntro(LowerAlnum, '.', Done, s, b + 1, c, c + 1);
    RunSepIntro(LowerAlnum, '-', t3, s, a + 1, b, c + 1);
    assert HyphenatedTail() == Repeat(LowerAlnum, 1, Unbounded, Char('-', t3));
    RunSepIntro(LowerAlnum, '-', HyphenatedTail(), s, i, a, c + 1);
    assert HyphenatedLabels == Repeat(LowerAlnum, 1, Unbounded, Char('-', HyphenatedTail()));
  }

  /**
   * The netloc is suspicious exactly when it holds an IPv4-like run of four
   * dotted digit groups, three hyphen-joined lower-case labels before a dot, or
   * eight ASCII digits in a row.
   */
  lemma SuspiciousHostSpec(s: string)
    ensures SuspiciousHost(s) <==>
              (exists i: nat, a: nat, b: nat, c: nat, d: nat :: DottedQuadAt(s, i, a, b, c, d))
              || (exists i: nat, a: nat, b: nat, c: nat :: HyphenatedAt(s, i, a, b, c))
              || (exists i: nat :: DigitRunAt(s, i))
  {
    DottedQuadSpec(s);
    HyphenatedSpec(s);
    LongDigitRunSpec(s);
    assert SuspiciousHost(s) <==>
      Search(SuspiciousPatterns[0], s) || Search(SuspiciousPatterns[1], s) || Search(SuspiciousPatterns[2], s);
  }

  const PrivateAddress := "192" + "." + "168" + "." + "0" + "." + "1"
  const PhishingHost := "secure" + "-" + "login" + "-" + "page" + "." + "com"

  /** A private IPv4 address is flagged, whatever the length of its groups. */
  lemma PrivateAddressSuspicious()
    ensures SuspiciousHost(PrivateAddress)
  {
    assert DottedQuadAt(PrivateAddress, 0, 3, 7, 9, 11);
    SuspiciousHostSpec(PrivateAddress);
  }

  /** A host with several hyphen-joined words before a dot is flagged. */
  lemma PhishingHostSuspicious()
    ensures SuspiciousHost(PhishingHost)
  {
    assert HyphenatedAt(PhishingHost, 0, 6, 12, 17);
    SuspiciousHostSpec(PhishingHost);
  }

  /**
   * A plain-http URL on an ordinary host whose certificate cannot be fetched
   * scores 100 - 20 - 15 = 65, with those two warnings.
   */
  lemma PlainHttpUnreachable(netloc: string, now: int)
    requires netloc != "" && !SuspiciousHost(netloc)
    ensures Assess(Parsed(UrlParts("http", netloc)), Unreachable, now) == Assessment(65, [NotHttps, CertUnavailable])
    ensures BandOf(65) == Yellow
  {
  }

  /**
   * The same URL on an IPv4-like host also loses the suspicious-domain 25, once,
   * even when the host matches the other patterns too.
   */
  lemma PlainHttpIpAddress(netloc: string, i: nat, a: nat, b: nat, c: nat, d: nat, now: int)
    requires DottedQuadAt(netloc, i, a, b, c, d)
    ensures Assess(Parsed(UrlParts("http", netloc)), Unreachable, now)
            == Assessment(40, [NotHttps, SuspiciousDomain(netloc), CertUnavailable])
    ensures BandOf(40) == Red
  {
    SuspiciousHostSpec(netloc);
  }

  /** The colour the URL tab gives a score: green from 80, yellow from 60, red below. */
  datatype Band = Green | Yellow | Red

  function BandOf(score: int): (b: Band)
    ensures b == Green <==> score >= 80
    ensures b == Red <==> score < 60
  {
    if score >= 80 then Green else if score >= 60 then Yellow else Red
  }

  function Severity(b: Band): nat
  {
    match b
    case Green => 0
    case Yellow => 1
    case Red => 2
  }

  /** A higher score never gets a more alarming colour. */
  lemma BandMonotone(s: int, t: int)
    requires s <= t
    ensures Severity(BandOf(t)) <= Severity(BandOf(s))
  {
  }

  /**
   * The colour of an assessment in terms of its warnings: a parse failure is
   * red; otherwise green exactly when the warnings cost at most 20 points and
   * red exactly when they cost more than 40.
   */
  lemma BandOfAssessment(parse: Parse, probe: CertProbe, now: int)
    ensures var a := Assess(parse, probe, now);
      (parse.ParseFailed? ==> BandOf(a.score) == Red)
      && (parse.Parsed? ==>
            (BandOf(a.score) == Green <==> TotalDeduction(a.warnings) <= 20)
            && (BandOf(a.score) == Red <==> TotalDeduction(a.warnings) > 40))
  {
    if parse.Parsed? {
      var a := Assess(parse, probe, now);
      assert a.score == Clamp(100 - TotalDeduction(a.warnings));
    }
  }
}
