/**
 * One report an HTML publisher archives: the name sanitiser that turns a
 * report name into a directory and URL segment, the trimming constructor,
 * the defaults of the optional settings, and equality and hashing.
 */
module HtmlPublisherTarget {
  import opened Wrappers
  import opened JavaText
  import opened Utf8

  // ---------------------------------------------------------------------------
  // Report-name sanitiser
  // ---------------------------------------------------------------------------

  /** The class `[a-zA-Z0-9-]`, never escaped. */
  predicate IsAlnumOrDash(c: char)
  {
    'a' <= c <= 'z' || 'A' <= c <= 'Z' || '0' <= c <= '9' || c == '-'
  }

  /** The characters the sanitiser copies: `_` too unless underscores are escaped. */
  predicate IsKept(c: char, escapeUnderscores: bool)
  {
    IsAlnumOrDash(c) || (!escapeUnderscores && c == '_')
  }

  /** The characters a sanitised name is made of, `[a-zA-Z0-9_-]`. */
  predicate IsNameChar(c: char)
  {
    IsAlnumOrDash(c) || c == '_'
  }

  predicate IsSafeName(s: string)
  {
    forall i :: 0 <= i < |s| ==> IsNameChar(s[i])
  }

  /** `_` followed by the lower-case hex of the UTF-8 bytes of c. */
  function EscapeChar(c: char): (r: string)
    ensures 3 <= |r| <= 9 && r[0] == '_'
    ensures IsSafeName(r)
  {
    var h := HexUtf8(c as int);
    assert forall i :: 0 <= i < |h| ==> IsNameChar(h[i]);
    "_" + h
  }

  function EncodeChar(c: char, escapeUnderscores: bool): string
  {
    if IsKept(c, escapeUnderscores) then [c] else EscapeChar(c)
  }

  /**
   * Every character outside the kept class is replaced by its escape; the
   * others are copied. Nothing is collapsed or dropped.
   */
  function SanitizeReportName(name: string, escapeUnderscores: bool): (r: string)
    ensures |r| >= |name|
    ensures r == [] <==> name == []
  {
    if |name| == 0 then "" else EncodeChar(name[0], escapeUnderscores) + SanitizeReportName(name[1..], escapeUnderscores)
  }

  /** In either mode the sanitised name is made of `[a-zA-Z0-9_-]` only. */
  lemma {:induction false} SanitizedIsSafe(name: string, escapeUnderscores: bool)
    ensures IsSafeName(SanitizeReportName(name, escapeUnderscores))
  {
    if |name| > 0 {
      var head := EncodeChar(name[0], escapeUnderscores);
      var rest := SanitizeReportName(name[1..], escapeUnderscores);
      SanitizedIsSafe(name[1..], escapeUnderscores);
      assert IsSafeName(head);
      assert forall i :: |head| <= i < |head + rest| ==> (head + rest)[i] == rest[i - |head|];
    }
  }

  predicate AllKept(name: string, escapeUnderscores: bool)
  {
    forall i :: 0 <= i < |name| ==> IsKept(name[i], escapeUnderscores)
  }

  /**
   * The sanitiser leaves a name alone exactly when every character is kept;
   * otherwise the name grows.
   */
  lemma {:induction false} SanitizeIdentity(name: string, escapeUnderscores: bool)
    ensures AllKept(name, escapeUnderscores) <==> SanitizeReportName(name, escapeUnderscores) == name
    ensures AllKept(name, escapeUnderscores) <==> |SanitizeReportName(name, escapeUnderscores)| == |name|
  {
    if |name| > 0 {
      SanitizeIdentity(name[1..], escapeUnderscores);
      SanitizeUnfold(name, escapeUnderscores);
      if AllKept(name, escapeUnderscores) {
        assert AllKept(name[1..], escapeUnderscores) by {
          forall i | 0 <= i < |name[1..]| ensures IsKept(name[1..][i], escapeUnderscores) {
            assert name[1..][i] == name[i + 1];
          }
        }
        assert [name[0]] + name[1..] == name;
      } else if IsKept(name[0], escapeUnderscores) {
        assert !AllKept(name[1..], escapeUnderscores) by {
          var i :| 0 <= i < |name| && !IsKept(name[i], escapeUnderscores);
          assert name[1..][i - 1] == name[i];
        }
      }
    }
  }

  /** The sanitiser works character by character: it distributes over concatenation. */
  lemma {:induction false} SanitizeConcat(a: string, b: string, escapeUnderscores: bool)
    ensures SanitizeReportName(a + b, escapeUnderscores)
         == SanitizeReportName(a, escapeUnderscores) + SanitizeReportName(b, escapeUnderscores)
  {
    if |a| > 0 {
      var head := EncodeChar(a[0], escapeUnderscores);
      var rest := SanitizeReportName(a[1..] + b, escapeUnderscores);
      SanitizeUnfold(a + b, escapeUnderscores);
      assert (a + b)[0] == a[0] && (a + b)[1..] == a[1..] + b;
      SanitizeConcat(a[1..], b, escapeUnderscores);
      SanitizeUnfold(a, escapeUnderscores);
      Associative(head, SanitizeReportName(a[1..], escapeUnderscores), SanitizeReportName(b, escapeUnderscores));
    } else {
      assert a + b == b;
    }
  }

  lemma Associative(x: string, y: string, z: string)
    ensures x + (y + z) == (x + y) + z
  {
  }

  /** A sanitised name is left alone by the non-escaping sanitiser, in either mode. */
  lemma SanitizeFixedPoint(name: string, escapeUnderscores: bool)
    ensures var r := SanitizeReportName(name, escapeUnderscores);
      SanitizeReportName(r, false) == r
  {
    var r := SanitizeReportName(name, escapeUnderscores);
    SanitizedIsSafe(name, escapeUnderscores);
    assert AllKept(r, false);
    SanitizeIdentity(r, false);
  }

  /** Underscores spelled out as their escape `_5f`, every other character kept. */
  function SpellOutUnderscores(s: string): (r: string)
    ensures '_' !in s ==> r == s
    ensures |r| >= |s|
  {
    if |s| == 0 then ""
    else SpelledOut(s[0]) + SpellOutUnderscores(s[1..])
  }

  /** Escaping underscores is the same as spelling them out and then not escaping them. */
  lemma {:induction false} EscapingUnderscoresSpellsThemOut(s: string)
    ensures SanitizeReportName(s, true) == SanitizeReportName(SpellOutUnderscores(s), false)
  {
    if |s| > 0 {
      var head := SpelledOut(s[0]);
      assert SpellOutUnderscores(s) == head + SpellOutUnderscores(s[1..]);
      SanitizeConcat(head, SpellOutUnderscores(s[1..]), false);
      EscapingUnderscoresSpellsThemOut(s[1..]);
      SanitizeUnfold(s, true);
      EscapeOneUnderscore(s[0]);
    }
  }

  function SpelledOut(c: char): string
  {
    if c == '_' then "_5f" else [c]
  }

  lemma EscapeOneUnderscore(c: char)
    ensures EncodeChar(c, true) == SanitizeReportName(SpelledOut(c), false)
  {
    if c == '_' {
      assert HexUtf8('_' as int) == "5f";
      assert AllKept("_5f", false);
      SanitizeIdentity("_5f", false);
    } else {
      assert SpelledOut(c)[1..] == [];
    }
  }

  /**
   * Reads back a name sanitised with underscores escaped: kept characters
   * stand for themselves, `_` introduces the hex of one UTF-8 sequence.
   */
  function Unsanitize(t: string): (r: Option<string>)
    decreases |t|
  {
    if |t| == 0 then Some("")
    else if IsAlnumOrDash(t[0]) then
      match Unsanitize(t[1..])
      case None => None
      case Some(rest) => Some([t[0]] + rest)
    else if t[0] == '_' then
      match ParseHexUtf8(t[1..])
      case None => None
      case Some((cp, n)) =>
        match Unsanitize(t[1 + n..])
        case None => None
        case Some(rest) => Some([cp as char] + rest)
    else None
  }

  /** With underscores escaped, the sanitised name determines the name. */
  lemma {:induction false} UnsanitizeRoundTrip(s: string)
    ensures Unsanitize(SanitizeReportName(s, true)) == Some(s)
  {
    if |s| > 0 {
      var tail := SanitizeReportName(s[1..], true);
      SanitizeUnfold(s, true);
      UnsanitizeRoundTrip(s[1..]);
      if IsAlnumOrDash(s[0]) {
        UnsanitizeKept(s[0], tail);
      } else {
        UnsanitizeEscaped(s[0], tail);
      }
      assert [s[0]] + s[1..] == s;
    }
  }

  lemma SanitizeUnfold(s: string, escapeUnderscores: bool)
    requires |s| > 0
    ensures SanitizeReportName(s, escapeUnderscores)
         == EncodeChar(s[0], escapeUnderscores) + SanitizeReportName(s[1..], escapeUnderscores)
  {
  }

  lemma UnsanitizeKept(c: char, tail: string)
    requires IsAlnumOrDash(c)
    ensures Unsanitize([c] + tail) == match Unsanitize(tail) case None => None case Some(r) => Some([c] + r)
  {
    assert ([c] + tail)[1..] == tail;
  }

  lemma UnsanitizeEscaped(c: char, tail: string)
    requires !IsAlnumOrDash(c)
    ensures Unsanitize(EscapeChar(c) + tail) == match Unsanitize(tail) case None => None case Some(r) => Some([c] + r)
  {
    var h := HexUtf8(c as int);
    var t := EscapeChar(c) + tail;
    assert t == "_" + (h + tail);
    assert t[1..] == h + tail;
    ParseHexUtf8RoundTrip(c as int, tail);
    assert t[1 + |h|..] == tail;
  }

  /** Escaping underscores makes the sanitiser injective. */
  lemma SanitizeInjective(a: string, b: string)
    requires SanitizeReportName(a, true) == SanitizeReportName(b, true)
    ensures a == b
  {
    UnsanitizeRoundTrip(a);
    UnsanitizeRoundTrip(b);
  }

  /** Punctuation becomes `_` and two hex digits (the tests' "foo!bar"). */
  lemma SanitizeBangExample()
    ensures SanitizeReportName("foo!bar", false) == "foo_21bar"
  {
    SanitizeAround("foo", '!', "bar");
    FooBarSpelling("foo!bar", '!', "foo_21bar", "_21");
  }

  /** A space becomes `_20`. */
  lemma SanitizeSpaceExample()
    ensures SanitizeReportName("foo bar", false) == "foo_20bar"
  {
    SanitizeAround("foo", ' ', "bar");
    FooBarSpelling("foo bar", ' ', "foo_20bar", "_20");
  }

  /** The two `foo?bar` examples: the name, the escape of its middle character and the expected result, spelled out. */
  lemma FooBarSpelling(s: string, c: char, r: string, e: string)
    requires (s == "foo!bar" && c == '!' && r == "foo_21bar" && e == "_21")
          || (s == "foo bar" && c == ' ' && r == "foo_20bar" && e == "_20")
    ensures s == "foo" + [c] + "bar" && r == "foo" + e + "bar" && EncodeChar(c, false) == e
  {
  }

  /** Leading and trailing spaces are escaped too, not dropped. */
  lemma SanitizePaddedExample(s: string)
    requires s == " foo bar "
    ensures SanitizeReportName(s, false) == "_20foo_20bar_20"
  {
    SanitizeSpaceExample();
    PaddedSpelling(s, "foo bar", "_20foo_20bar_20", "foo_20bar");
    SanitizePaddedBySpaces("foo bar", "foo_20bar");
  }

  /** The padded example and its expected result, spelled as pieces. */
  lemma PaddedSpelling(s: string, m: string, r: string, e: string)
    requires s == " foo bar " && m == "foo bar" && r == "_20foo_20bar_20" && e == "foo_20bar"
    ensures s == " " + m + " " && r == "_20" + e + "_20"
  {
  }

  /** A space on either side of a name adds `_20` on that side of its sanitised form. */
  lemma SanitizePaddedBySpaces(m: string, e: string)
    requires SanitizeReportName(m, false) == e
    ensures SanitizeReportName(" " + m + " ", false) == "_20" + e + "_20"
  {
    SanitizeLoneSpace();
    SanitizeConcat(" " + m, " ", false);
    SanitizeConcat(" ", m, false);
  }

  lemma SanitizeLoneSpace()
    ensures SanitizeReportName(" ", false) == "_20"
  {
    SanitizeSingle(' ', false);
    assert EncodeChar(' ', false) == "_20";
  }

  /** Repeated characters are not collapsed. */
  lemma SanitizeNoCollapseExample()
    ensures SanitizeReportName("foo!bar", false) != SanitizeReportName("foo!!!!bar", false)
  {
    SanitizeBangExample();
    RepeatedBangsLength("foo!!!!bar");
  }

  /** Each of the four `!` of `foo!!!!bar` takes three characters, so its sanitised form is longer than `foo_21bar`. */
  lemma RepeatedBangsLength(s: string)
    requires s == "foo!!!!bar"
    ensures |SanitizeReportName(s, false)| > 9
  {
    var a, b := "foo", "!!!bar";
    assert s == a + ['!'] + b;
    SanitizeConcat(a + ['!'], b, false);
    SanitizeConcat(a, ['!'], false);
    SanitizeSingle('!', false);
    assert |EncodeChar('!', false)| >= 3;
  }

  /** A space and an underscore no longer give the same name. */
  lemma SanitizeSpaceNotUnderscoreExample()
    ensures SanitizeReportName("foo bar", false) != SanitizeReportName("foo_bar", false)
  {
    SanitizeSpaceExample();
    SanitizeUnderscoreKept("foo_bar");
    assert |"foo_20bar"| != |"foo_bar"|;
  }

  /** Without escaping, `foo_bar` is already a directory name. */
  lemma SanitizeUnderscoreKept(s: string)
    requires s == "foo_bar"
    ensures SanitizeReportName(s, false) == s
  {
    assert AllKept(s, false);
    SanitizeIdentity(s, false);
  }

  /** Non-ASCII code points become `_` and the hex of all their UTF-8 bytes (U+5DDD U+53E3). */
  lemma SanitizeUnicodeExample()
    ensures SanitizeReportName("川口", false) == "_e5b79d_e58fa3"
  {
    SanitizeU5DDD();
    SanitizeU53E3();
    SanitizeConcat("川", "口", false);
    assert "川" + "口" == "川口";
  }

  lemma SanitizeU5DDD()
    ensures SanitizeReportName("川", false) == "_e5b79d"
  {
    SanitizeSingle('川', false);
    assert '川' as int == 0x5DDD;
    assert Encode(0x5DDD) == [0xe5, 0xb7, 0x9d];
    assert Hex([0xe5, 0xb7, 0x9d]) == "e5b79d";
  }

  lemma SanitizeU53E3()
    ensures SanitizeReportName("口", false) == "_e58fa3"
  {
    SanitizeSingle('口', false);
    assert '口' as int == 0x53E3;
    assert Encode(0x53E3) == [0xe5, 0x8f, 0xa3];
    assert Hex([0xe5, 0x8f, 0xa3]) == "e58fa3";
  }

  /** The underscore test: escaping `_` gives what the spelled-out name gives without escaping. */
  lemma SanitizeUnderscoreExample()
    ensures SanitizeReportName("foo_bar", true) == SanitizeReportName("foo_5fbar", false)
  {
    EscapingUnderscoresSpellsThemOut("foo_bar");
    SpellOutExample("foo_bar");
  }

  lemma SpellOutExample(s: string)
    requires s == "foo_bar"
    ensures SpellOutUnderscores(s) == "foo_5fbar"
  {
    assert s == "foo" + "_" + "bar";
    SpellOutAround("foo", "bar");
    assert "foo" + "_5f" + "bar" == "foo_5fbar";
  }

  /** One underscore between two runs without underscores is spelled out and nothing else changes. */
  lemma SpellOutAround(a: string, b: string)
    requires '_' !in a && '_' !in b
    ensures SpellOutUnderscores(a + "_" + b) == a + "_5f" + b
  {
    SpellOutConcat(a + "_", b);
    SpellOutConcat(a, "_");
    SpellOutUnderscore();
  }

  lemma SpellOutUnderscore()
    ensures SpellOutUnderscores("_") == "_5f"
  {
    assert "_"[1..] == "";
  }

  /** Spelling out works character by character: it distributes over concatenation. */
  lemma {:induction false} SpellOutConcat(a: string, b: string)
    ensures SpellOutUnderscores(a + b) == SpellOutUnderscores(a) + SpellOutUnderscores(b)
  {
    if |a| > 0 {
      var head := SpelledOut(a[0]);
      assert (a + b)[0] == a[0] && (a + b)[1..] == a[1..] + b;
      assert SpellOutUnderscores(a + b) == head + SpellOutUnderscores(a[1..] + b);
      SpellOutConcat(a[1..], b);
      assert SpellOutUnderscores(a) == head + SpellOutUnderscores(a[1..]);
    } else {
      assert a + b == b;
    }
  }

  /** One escaped character between two runs of kept ones. */
  lemma SanitizeAround(a: string, c: char, b: string)
    requires forall i :: 0 <= i < |a| ==> IsAlnumOrDash(a[i])
    requires forall i :: 0 <= i < |b| ==> IsAlnumOrDash(b[i])
    ensures SanitizeReportName(a + [c] + b, false) == a + EncodeChar(c, false) + b
  {
    SanitizeConcat(a + [c], b, false);
    SanitizeConcat(a, [c], false);
    SanitizeSingle(c, false);
    SanitizeKeptRun(a);
    SanitizeKeptRun(b);
  }

  lemma SanitizeSingle(c: char, escapeUnderscores: bool)
    ensures SanitizeReportName([c], escapeUnderscores) == EncodeChar(c, escapeUnderscores)
  {
    SanitizeUnfold([c], escapeUnderscores);
    assert [c][1..] == [];
  }

  lemma SanitizeKeptRun(a: string)
    requires forall i :: 0 <= i < |a| ==> IsAlnumOrDash(a[i])
    ensures SanitizeReportName(a, false) == a
  {
    SanitizeIdentity(a, false);
  }

  /** Without underscore escaping two names can share a directory. */
  lemma SanitizeNotInjectiveWithoutEscaping()
    ensures SanitizeReportName("foo bar", false) == SanitizeReportName("foo_20bar", false)
    ensures "foo bar" != "foo_20bar"
  {
    SanitizeSpaceExample();
    SanitizeKeptExample();
  }

  lemma SanitizeKeptExample()
    ensures SanitizeReportName("foo_20bar", false) == "foo_20bar"
  {
    assert AllKept("foo_20bar", false);
    SanitizeIdentity("foo_20bar", false);
  }

  // ---------------------------------------------------------------------------
  // The target
  // ---------------------------------------------------------------------------

  const IncludeAllPattern: string := "**/*"

  /**
   * The settings of one report. Java null is None; the boxed Booleans of the
   * optional settings are None until their setter has run.
   */
  datatype Target = Target(
    reportName: Option<string>,
    reportDir: Option<string>,
    reportFiles: Option<string>,
    keepAll: bool,
    alwaysLinkToLastBuild: bool,
    allowMissing: bool,
    reportTitles: Option<string>,
    icon: Option<string>,
    includes: Option<string>,
    escapeUnderscores: Option<bool>,
    useWrapperFileDirectly: Option<bool>,
    numberOfWorkers: int)

  predicate IsTrimmed(s: Option<string>)
  {
    s.None? || s.value == [] || (!IsTrimmable(s.value[0]) && !IsTrimmable(s.value[|s.value| - 1]))
  }

  function EscapeUnderscores(t: Target): (b: bool)
    ensures t.escapeUnderscores.None? ==> b
  {
    t.escapeUnderscores.GetOr(true)
  }

  function UseWrapperFileDirectly(t: Target): (b: bool)
    ensures t.useWrapperFileDirectly.None? ==> !b
  {
    t.useWrapperFileDirectly.GetOr(false)
  }

  /** The include pattern, all files when none or an empty one was set. */
  function Includes(t: Target): (r: string)
    ensures r != []
    ensures t.includes.Some? && t.includes.value != [] ==> r == t.includes.value
    ensures r != IncludeAllPattern ==> t.includes == Some(r)
  {
    if t.includes.None? || t.includes.value == [] then IncludeAllPattern else t.includes.value
  }

  /**
   * The constructor: the three strings are trimmed (null stays null), the
   * flags stored, every optional setting unset.
   */
  function NewTarget(reportName: Option<string>, reportDir: Option<string>, reportFiles: Option<string>,
                     keepAll: bool, alwaysLinkToLastBuild: bool, allowMissing: bool): (t: Target)
    ensures IsTrimmed(t.reportName) && IsTrimmed(t.reportDir) && IsTrimmed(t.reportFiles)
    ensures TrimmedFrom(reportName, t.reportName)
    ensures TrimmedFrom(reportDir, t.reportDir)
    ensures TrimmedFrom(reportFiles, t.reportFiles)
    ensures t.keepAll == keepAll && t.alwaysLinkToLastBuild == alwaysLinkToLastBuild && t.allowMissing == allowMissing
    ensures EscapeUnderscores(t) && !UseWrapperFileDirectly(t)
    ensures t.includes.None? && Includes(t) == IncludeAllPattern
    ensures t.numberOfWorkers == 0
  {
    Target(TrimNullable(reportName), TrimNullable(reportDir), TrimNullable(reportFiles),
           keepAll, alwaysLinkToLastBuild, allowMissing,
           None, None, None, None, None, 0)
  }

  /** The deprecated five-argument constructor never links to the last build. */
  function NewTargetDeprecated(reportName: Option<string>, reportDir: Option<string>, reportFiles: Option<string>,
                               keepAll: bool, allowMissing: bool): (t: Target)
    ensures !t.alwaysLinkToLastBuild && t.keepAll == keepAll && t.allowMissing == allowMissing
    ensures Equals(t, NewTarget(reportName, reportDir, reportFiles, keepAll, false, allowMissing))
  {
    NewTarget(reportName, reportDir, reportFiles, keepAll, false, allowMissing)
  }

  /** The trailing-space test: trimmed once, a target rebuilt from its own fields is the same. */
  lemma NewTargetExamples()
    ensures var t := NewTarget(Some("tab1 "), Some("target "), Some("tab1.html "), true, true, false);
      t.reportName == Some("tab1") && t.reportDir == Some("target") && t.reportFiles == Some("tab1.html")
  {
    TrimmedBeforeSpace("tab1");
    assert "tab1" + " " == "tab1 ";
    TrimmedBeforeSpace("target");
    assert "target" + " " == "target ";
    TrimmedBeforeSpace("tab1.html");
    assert "tab1.html" + " " == "tab1.html ";
  }

  lemma TrimmedBeforeSpace(w: string)
    requires |w| > 0 && !IsTrimmable(w[0]) && !IsTrimmable(w[|w| - 1])
    ensures Trim(w + " ") == w
  {
    var s := w + " ";
    assert IsTrimmedSlice(s, 0, |w|);
    TrimSlice(s, 0, |w|);
    assert s[0..|w|] == w;
  }

  /** Constructing from the fields of a constructed target changes nothing. */
  lemma NewTargetIdempotent(n: Option<string>, d: Option<string>, f: Option<string>, k: bool, a: bool, m: bool)
    ensures var t := NewTarget(n, d, f, k, a, m);
      NewTarget(t.reportName, t.reportDir, t.reportFiles, k, a, m) == t
  {
    if n.Some? { TrimTrim(n.value); }
    if d.Some? { TrimTrim(d.value); }
    if f.Some? { TrimTrim(f.value); }
  }

  /** setReportName: the name is stored trimmed, null stays null, nothing else changes. */
  function SetReportName(t: Target, name: Option<string>): (t': Target)
    ensures IsTrimmed(t'.reportName) && TrimmedFrom(name, t'.reportName)
    ensures t' == t.(reportName := t'.reportName)
  {
    t.(reportName := TrimNullable(name))
  }

  /** setIncludes: the pattern is stored as given, untrimmed, nothing else changes. */
  function SetIncludes(t: Target, includes: Option<string>): (t': Target)
    ensures t'.includes == includes && t' == t.(includes := t'.includes)
    ensures Equals(t', t) && HashCode(t') == HashCode(t)
    ensures includes.Some? && includes.value != [] ==> Includes(t') == includes.value
  {
    t.(includes := includes)
  }

  /** setIcon: the icon is stored trimmed, null stays null, nothing else changes. */
  function SetIcon(t: Target, icon: Option<string>): (t': Target)
    ensures IsTrimmed(t'.icon) && TrimmedFrom(icon, t'.icon)
    ensures t' == t.(icon := t'.icon)
    ensures Equals(t', t) && HashCode(t') == HashCode(t)
  {
    t.(icon := TrimNullable(icon))
  }

  /** setReportTitles: the titles are stored trimmed, null stays null, nothing else changes. */
  function SetReportTitles(t: Target, titles: Option<string>): (t': Target)
    ensures IsTrimmed(t'.reportTitles) && TrimmedFrom(titles, t'.reportTitles)
    ensures t' == t.(reportTitles := t'.reportTitles)
    ensures Equals(t', t) && HashCode(t') == HashCode(t)
  {
    t.(reportTitles := TrimNullable(titles))
  }

  /** A trimming setter applied to what it stored stores the same again. */
  lemma TrimmingSettersIdempotent(t: Target, s: Option<string>)
    ensures var t1 := SetReportName(t, s); SetReportName(t1, t1.reportName) == t1
    ensures var t1 := SetIcon(t, s); SetIcon(t1, t1.icon) == t1
    ensures var t1 := SetReportTitles(t, s); SetReportTitles(t1, t1.reportTitles) == t1
  {
    if s.Some? {
      TrimTrim(s.value);
    }
  }

  /** Setting the name of a target built without one gives the target built with that name. */
  lemma SetReportNameAsConstructed(n: Option<string>, d: Option<string>, f: Option<string>, k: bool, a: bool, m: bool)
    ensures SetReportName(NewTarget(None, d, f, k, a, m), n) == NewTarget(n, d, f, k, a, m)
  {
  }

  /** setEscapeUnderscores: a non-null flag is stored, nothing else changes. */
  function SetEscapeUnderscores(t: Target, b: bool): (t': Target)
    ensures t'.escapeUnderscores.Some? && EscapeUnderscores(t') == b
    ensures t' == t.(escapeUnderscores := t'.escapeUnderscores)
    ensures Equals(t', t) && HashCode(t') == HashCode(t)
  {
    t.(escapeUnderscores := Some(b))
  }

  /** setUseWrapperFileDirectly: a non-null flag is stored, nothing else changes. */
  function SetUseWrapperFileDirectly(t: Target, b: bool): (t': Target)
    ensures t'.useWrapperFileDirectly.Some? && UseWrapperFileDirectly(t') == b
    ensures t' == t.(useWrapperFileDirectly := t'.useWrapperFileDirectly)
    ensures Equals(t', t) && HashCode(t') == HashCode(t)
  {
    t.(useWrapperFileDirectly := Some(b))
  }

  /** setNumberOfWorkers: the count is stored as given, nothing else changes. */
  function SetNumberOfWorkers(t: Target, n: int): (t': Target)
    ensures t'.numberOfWorkers == n
    ensures t' == t.(numberOfWorkers := t'.numberOfWorkers)
    ensures Equals(t', t) && HashCode(t') == HashCode(t)
  {
    t.(numberOfWorkers := n)
  }

  /** The include-pattern test: unset, null and empty all mean every file. */
  lemma IncludesExamples(t: Target, name: Option<string>, dir: Option<string>, files: Option<string>)
    requires name == Some("tab1") && dir == Some("target") && files == Some("tab1.html")
    ensures Includes(NewTarget(name, dir, files, true, true, false)) == IncludeAllPattern
    ensures Includes(SetIncludes(t, None)) == IncludeAllPattern
    ensures Includes(SetIncludes(t, Some("hello"))) == "hello"
    ensures Includes(SetIncludes(t, Some(""))) == IncludeAllPattern
  {
  }

  /** Deserialisation fills a missing include pattern with the all-files pattern. */
  function ReadResolve(t: Target): (t': Target)
    ensures t'.includes.Some?
    ensures Includes(t') == Includes(t)
    ensures t.includes.Some? ==> t' == t
    ensures t' == t.(includes := t'.includes)
  {
    if t.includes.None? then t.(includes := Some(IncludeAllPattern)) else t
  }

  /**
   * The directory name of the report; None where Java would throw a
   * NullPointerException for a missing name. With the default escaping the
   * name can be read back from it.
   */
  function SanitizedName(t: Target): (r: Option<string>)
    ensures r.Some? <==> t.reportName.Some?
    ensures r.Some? ==> IsSafeName(r.value)
    ensures r.Some? && EscapeUnderscores(t) ==> Unsanitize(r.value) == t.reportName
  {
    match t.reportName
    case None => None
    case Some(name) =>
      UnsanitizeRoundTrip(name);
      SanitizedIsSafe(name, EscapeUnderscores(t));
      Some(SanitizeReportName(name, EscapeUnderscores(t)))
  }

  /** Two targets with the default escaping and different names archive to different directories. */
  lemma SanitizedNameInjective(a: Target, b: Target)
    requires a.reportName.Some? && b.reportName.Some?
    requires EscapeUnderscores(a) && EscapeUnderscores(b)
    requires SanitizedName(a) == SanitizedName(b)
    ensures a.reportName == b.reportName
  {
  }

  // ---------------------------------------------------------------------------
  // Equality and hashing
  // ---------------------------------------------------------------------------

  /** Equality looks at the six constructor fields and nothing else. */
  predicate Equals(a: Target, b: Target)
  {
    && a.reportName == b.reportName
    && a.reportDir == b.reportDir
    && a.reportFiles == b.reportFiles
    && a.alwaysLinkToLastBuild == b.alwaysLinkToLastBuild
    && a.keepAll == b.keepAll
    && a.allowMissing == b.allowMissing
  }

  function OptionHash(s: Option<string>): int
  {
    if s.None? then 0 else StringHashCode(s.value)
  }

  function BoolHash(b: bool): int
  {
    if b then 1 else 0
  }

  /** The six terms of the hash, after the seed 5. */
  function HashTerms(t: Target): seq<int>
  {
    [5, OptionHash(t.reportName), OptionHash(t.reportDir), OptionHash(t.reportFiles),
     BoolHash(t.alwaysLinkToLastBuild), BoolHash(t.keepAll), BoolHash(t.allowMissing)]
  }

  /** `hash = 97 * hash + term` in int arithmetic, which equals the exact polynomial wrapped once. */
  function HashCode(t: Target): (h: int)
    ensures IsInt32(h)
    ensures h == ToInt32(Horner(HashTerms(t), 97))
  {
    HornerInt32(HashTerms(t), 97)
  }

  /** Equal targets hash alike, so the pair is a valid hash key. */
  lemma EqualsHashCode(a: Target, b: Target)
    requires Equals(a, b)
    ensures HashCode(a) == HashCode(b)
  {
    assert HashTerms(a) == HashTerms(b);
  }

  /** Equals is an equivalence relation. */
  lemma EqualsEquivalence(a: Target, b: Target, c: Target)
    ensures Equals(a, a)
    ensures Equals(a, b) ==> Equals(b, a)
    ensures Equals(a, b) && Equals(b, c) ==> Equals(a, c)
  {
  }
}
