/**
 * Rewriting of a report's Content-Security-Policy header: the policy is cut
 * into directives at `;`, each keyed by its first space-separated token,
 * the first directive per key kept; the result is a mandatory `sandbox`
 * directive, the configured `script-src`, `style-src` and `img-src`
 * directives, then every other directive as written. Also the `sandbox`
 * attribute of the report iframe.
 *
 * The global "content security override allowed" setting is a parameter.
 */
module ContentSecurity {
  import opened Wrappers
  import opened JavaText

  datatype Scripts = Scripts(allowUnsafeInline: bool, allowUnsafeEval: bool)
  datatype Styles = Styles(allowUnsafeInline: bool)
  datatype Images = Images(allowData: bool)

  /** A report's content-security options; None for an option object left null. */
  datatype Config = Config(scripts: Option<Scripts>, styles: Option<Styles>, images: Option<Images>, allowSameOrigin: bool)

  const Sandbox: string := "sandbox"
  const ScriptSrc: string := "script-src"
  const StyleSrc: string := "style-src"
  const ImgSrc: string := "img-src"

  const AllowScripts: string := "allow-scripts"
  const AllowSameOrigin: string := "allow-same-origin"
  const UnsafeInline: string := "'unsafe-inline'"
  const UnsafeEval: string := "'unsafe-eval'"
  const DataScheme: string := "data:"

  /** What a missing directive starts from. */
  const DefaultSandbox: string := "sandbox "
  const DefaultScriptSrc: string := "script-src 'self'"
  const DefaultStyleSrc: string := "style-src 'self'"
  const DefaultImgSrc: string := "img-src 'self'"

  /** `" " + token` when it is added, nothing otherwise. */
  function Suffix(added: bool, token: string): string
  {
    if added then " " + token else ""
  }

  // ---------------------------------------------------------------------------
  // The sandbox directive
  // ---------------------------------------------------------------------------

  /** One step of the sandbox builder: append ` token ` to the trimmed text unless present or unwanted. */
  function SandboxStep(d: string, token: string, wanted: bool): string
  {
    if wanted && !Contains(d, token) then Trim(d) + " " + token + " " else d
  }

  /** A sandbox step adds the tokens of its appended token, and no others. */
  lemma SandboxStepContains(d: string, token: string, wanted: bool, n: string)
    requires IsToken(n)
    ensures Contains(SandboxStep(d, token, wanted), n)
            <==> Contains(d, n) || (wanted && !Contains(d, token) && Contains(token, n))
  {
    if wanted && !Contains(d, token) {
      ContainsPadded(d, token, n);
    }
  }

  /** Re-trimming a non-blank directive padded with ` token ` leaves the trimmed directive and ` token`. */
  lemma TrimPaddedToken(d: string, token: string)
    requires IsToken(token) && Trim(d) != []
    ensures Trim(Trim(d) + " " + token + " ") == Trim(d) + Suffix(true, token)
  {
    var t := Trim(d);
    TrimTrim(d);
    TrimPadded(t, token);
    assert t + " " + token == t + Suffix(true, token);
  }

  /** A sandbox step on a non-blank directive appends ` token` to its trimmed form, when it adds the token. */
  lemma SandboxStepTrim(d: string, token: string, wanted: bool)
    requires IsToken(token) && Trim(d) != []
    ensures Trim(SandboxStep(d, token, wanted)) == Trim(d) + Suffix(wanted && !Contains(d, token), token)
  {
    if wanted && !Contains(d, token) {
      TrimPaddedToken(d, token);
    } else {
      assert Trim(d) + Suffix(false, token) == Trim(d);
    }
  }

  /**
   * The sandbox directive's text, before its terminating `; `. It keeps the
   * existing directive, trimmed, and adds `allow-scripts` when scripts are
   * configured and `allow-same-origin` when same origin is allowed, each only
   * if the directive does not already contain it.
   */
  function SandboxText(existing: Option<string>, scripts: bool, sameOrigin: bool): (r: string)
    ensures var d := existing.GetOr(DefaultSandbox);
      && Trim(r) == r
      && (Contains(r, AllowScripts) <==> scripts || Contains(d, AllowScripts))
      && (Contains(r, AllowSameOrigin) <==> sameOrigin || Contains(d, AllowSameOrigin))
      && (Trim(d) != [] ==>
            r == Trim(d)
                 + Suffix(scripts && !Contains(d, AllowScripts), AllowScripts)
                 + Suffix(sameOrigin && !Contains(d, AllowSameOrigin), AllowSameOrigin))
  {
    var d := existing.GetOr(DefaultSandbox);
    var s1 := SandboxStep(d, AllowScripts, scripts);
    var s2 := SandboxStep(s1, AllowSameOrigin, sameOrigin);
    SandboxTextFacts(d, scripts, sameOrigin);
    Trim(s2)
  }

  lemma SandboxTextFacts(d: string, scripts: bool, sameOrigin: bool)
    ensures var s1 := SandboxStep(d, AllowScripts, scripts);
      var s2 := SandboxStep(s1, AllowSameOrigin, sameOrigin);
      && (Contains(Trim(s2), AllowScripts) <==> scripts || Contains(d, AllowScripts))
      && (Contains(Trim(s2), AllowSameOrigin) <==> sameOrigin || Contains(d, AllowSameOrigin))
      && (Trim(d) != [] ==>
            Trim(s2) == Trim(d)
                        + Suffix(scripts && !Contains(d, AllowScripts), AllowScripts)
                        + Suffix(sameOrigin && !Contains(d, AllowSameOrigin), AllowSameOrigin))
  {
    var s1 := SandboxStep(d, AllowScripts, scripts);
    var s2 := SandboxStep(s1, AllowSameOrigin, sameOrigin);
    TokensDiffer();
    ContainsSelf(AllowScripts);
    ContainsSelf(AllowSameOrigin);
    SandboxStepContains(d, AllowScripts, scripts, AllowScripts);
    SandboxStepContains(d, AllowScripts, scripts, AllowSameOrigin);
    SandboxStepContains(s1, AllowSameOrigin, sameOrigin, AllowScripts);
    SandboxStepContains(s1, AllowSameOrigin, sameOrigin, AllowSameOrigin);
    ContainsTrim(s2, AllowScripts);
    ContainsTrim(s2, AllowSameOrigin);
    if Trim(d) != [] {
      SandboxStepTrim(d, AllowScripts, scripts);
      assert Trim(s1) != [];
      SandboxStepTrim(s1, AllowSameOrigin, sameOrigin);
      assert Trim(s1) + Suffix(sameOrigin && !Contains(d, AllowSameOrigin), AllowSameOrigin)
          == Trim(d)
             + Suffix(scripts && !Contains(d, AllowScripts), AllowScripts)
             + Suffix(sameOrigin && !Contains(d, AllowSameOrigin), AllowSameOrigin);
    }
  }

  /** The tokens the builders add are words of their own, and none contains another. */
  lemma TokensDiffer()
    ensures IsToken(AllowScripts) && IsToken(AllowSameOrigin)
    ensures IsToken(UnsafeInline) && IsToken(UnsafeEval) && IsToken(DataScheme)
    ensures !Contains(AllowScripts, AllowSameOrigin) && !Contains(AllowSameOrigin, AllowScripts)
    ensures !Contains(UnsafeInline, UnsafeEval) && !Contains(UnsafeEval, UnsafeInline)
  {
    NotContainsLonger(AllowScripts, AllowSameOrigin);
    NotContainsMissingChar(AllowSameOrigin, AllowScripts, 'c');
    NotContainsMissingChar(UnsafeInline, UnsafeEval, 'v');
    NotContainsMissingChar(UnsafeEval, UnsafeInline, 'i');
  }

  // ---------------------------------------------------------------------------
  // The source-list directives
  // ---------------------------------------------------------------------------

  /** Appends ` token` when wanted and not yet present. */
  function AppendIfAbsent(d: string, token: string, wanted: bool): (r: string)
    requires IsToken(token)
    ensures StartsWith(r, d)
    ensures Contains(r, token) <==> wanted || Contains(d, token)
    ensures r == d + Suffix(wanted && !Contains(d, token), token)
  {
    if wanted && !Contains(d, token) then
      AppendToken(d, token);
      d + " " + token
    else
      d
  }

  lemma AppendToken(d: string, token: string)
    requires IsToken(token)
    ensures StartsWith(d + " " + token, d) && Contains(d + " " + token, token)
    ensures d + " " + token == d + Suffix(true, token)
  {
    var r := d + " " + token;
    assert Contains(r, token) by {
      ContainsSelf(token);
      ContainsSpaceJoined(d, token, token);
    }
    assert StartsWith(r, d) by {
      assert r[..|d|] == d;
    }
    assert r == d + Suffix(true, token) by {
      assert Suffix(true, token) == " " + token;
    }
  }

  /** Appending one token leaves the presence of any other token it does not contain as it was. */
  lemma AppendKeepsOthers(d: string, token: string, wanted: bool, n: string)
    requires IsToken(token) && IsToken(n) && !Contains(token, n)
    ensures Contains(AppendIfAbsent(d, token, wanted), n) <==> Contains(d, n)
  {
    if wanted && !Contains(d, token) {
      ContainsSpaceJoined(d, token, n);
    }
  }

  /** The existing directive trimmed, or the default when there is none. */
  function SourceBase(existing: Option<string>, default: string): (r: string)
    ensures existing.Some? ==> Trim(r) == r
  {
    match existing
    case None => default
    case Some(d) => TrimTrim(d); Trim(d)
  }

  /**
   * The `script-src` text: the base, then `'unsafe-inline'` and
   * `'unsafe-eval'`, each when allowed and not already present.
   */
  function ScriptsText(existing: Option<string>, scripts: Scripts): (r: string)
    ensures var base := SourceBase(existing, DefaultScriptSrc);
      && StartsWith(r, base)
      && (Contains(r, UnsafeInline) <==> scripts.allowUnsafeInline || Contains(base, UnsafeInline))
      && (Contains(r, UnsafeEval) <==> scripts.allowUnsafeEval || Contains(base, UnsafeEval))
      && r == base
              + Suffix(scripts.allowUnsafeInline && !Contains(base, UnsafeInline), UnsafeInline)
              + Suffix(scripts.allowUnsafeEval && !Contains(base, UnsafeEval), UnsafeEval)
  {
    TokensDiffer();
    var base := SourceBase(existing, DefaultScriptSrc);
    var s1 := AppendIfAbsent(base, UnsafeInline, scripts.allowUnsafeInline);
    var s2 := AppendIfAbsent(s1, UnsafeEval, scripts.allowUnsafeEval);
    AppendKeepsOthers(base, UnsafeInline, scripts.allowUnsafeInline, UnsafeEval);
    AppendKeepsOthers(s1, UnsafeEval, scripts.allowUnsafeEval, UnsafeInline);
    PrefixOfPrefix(s2, s1, base);
    s2
  }

  /** The `style-src` text: the base, then `'unsafe-inline'` when allowed and not already present. */
  function StylesText(existing: Option<string>, styles: Styles): (r: string)
    ensures var base := SourceBase(existing, DefaultStyleSrc);
      && StartsWith(r, base)
      && (Contains(r, UnsafeInline) <==> styles.allowUnsafeInline || Contains(base, UnsafeInline))
      && r == base + Suffix(styles.allowUnsafeInline && !Contains(base, UnsafeInline), UnsafeInline)
  {
    TokensDiffer();
    AppendIfAbsent(SourceBase(existing, DefaultStyleSrc), UnsafeInline, styles.allowUnsafeInline)
  }

  /** The `img-src` text: the base, then `data:` when allowed and not already present. */
  function ImagesText(existing: Option<string>, images: Images): (r: string)
    ensures var base := SourceBase(existing, DefaultImgSrc);
      && StartsWith(r, base)
      && (Contains(r, DataScheme) <==> images.allowData || Contains(base, DataScheme))
      && r == base + Suffix(images.allowData && !Contains(base, DataScheme), DataScheme)
  {
    TokensDiffer();
    AppendIfAbsent(SourceBase(existing, DefaultImgSrc), DataScheme, images.allowData)
  }

  // ---------------------------------------------------------------------------
  // Directives keyed by their first token
  // ---------------------------------------------------------------------------

  /** `directive.trim().split(" ")[0]`: the trimmed directive up to its first space. */
  function DirectiveKey(d: string): (k: string)
    ensures k == TakeUntil(Trim(d), ' ')
  {
    TrimTrim(d);
    FirstToken(Trim(d));
    Split(Trim(d), ' ')[0]
  }

  /** Key-to-directive pairs in first-occurrence order; the directive is kept as written. */
  type Directives = seq<(string, string)>

  predicate DistinctKeys(ds: Directives)
  {
    forall i, j :: 0 <= i < j < |ds| ==> ds[i].0 != ds[j].0
  }

  /** Every pair's key is the key of its directive. */
  predicate WellKeyed(ds: Directives)
  {
    forall i :: 0 <= i < |ds| ==> ds[i].0 == DirectiveKey(ds[i].1)
  }

  function Lookup(ds: Directives, k: string): Option<string>
  {
    if |ds| == 0 then None else if ds[0].0 == k then Some(ds[0].1) else Lookup(ds[1..], k)
  }

  /** The pairs whose key is not k, in their order (Map.remove). */
  function Without(ds: Directives, k: string): (r: Directives)
    ensures forall j :: Lookup(r, j) == if j == k then None else Lookup(ds, j)
    ensures forall p :: p in r ==> p.0 != k && p in ds
    ensures DistinctKeys(ds) ==> DistinctKeys(r)
  {
    if |ds| == 0 then []
    else
      var rest := Without(ds[1..], k);
      if ds[0].0 == k then rest
      else
        assert DistinctKeys(ds) ==> forall i :: 0 <= i < |rest| ==> rest[i].0 != ds[0].0 by {
          if DistinctKeys(ds) {
            forall i | 0 <= i < |rest| ensures rest[i].0 != ds[0].0 {
              assert rest[i] in rest;
              var m :| 0 <= m < |ds[1..]| && ds[1..][m] == rest[i];
              assert ds[m + 1] == rest[i];
            }
          }
        }
        [ds[0]] + rest
  }

  /** Without, when the flag is set. */
  function WithoutIf(ds: Directives, k: string, remove: bool): (r: Directives)
    ensures forall j :: Lookup(r, j) == if remove && j == k then None else Lookup(ds, j)
    ensures forall p :: p in r ==> p in ds
    ensures DistinctKeys(ds) ==> DistinctKeys(r)
  {
    if remove then Without(ds, k) else ds
  }

  /** The first directive with key k, the one `toMap` with a keep-first merge keeps. */
  function FirstWithKey(pieces: seq<string>, k: string): (r: Option<string>)
    ensures r.Some? ==> r.value in pieces && DirectiveKey(r.value) == k
  {
    if |pieces| == 0 then None
    else if DirectiveKey(pieces[0]) == k then Some(pieces[0])
    else FirstWithKey(pieces[1..], k)
  }

  /** The directives of a policy: one pair per key, holding the first directive with that key. */
  function Collect(pieces: seq<string>): (ds: Directives)
    ensures DistinctKeys(ds) && WellKeyed(ds)
    ensures forall k :: Lookup(ds, k) == FirstWithKey(pieces, k)
  {
    if |pieces| == 0 then []
    else
      var k := DirectiveKey(pieces[0]);
      var w := Without(Collect(pieces[1..]), k);
      CollectStep(pieces, Collect(pieces[1..]), w);
      [(k, pieces[0])] + w
  }

  /** One step of Collect: the first piece's pair in front of the rest's pairs without its key. */
  lemma CollectStep(pieces: seq<string>, rest: Directives, w: Directives)
    requires |pieces| > 0
    requires DistinctKeys(rest) && WellKeyed(rest)
    requires forall k :: Lookup(rest, k) == FirstWithKey(pieces[1..], k)
    requires w == Without(rest, DirectiveKey(pieces[0]))
    ensures var ds := [(DirectiveKey(pieces[0]), pieces[0])] + w;
      && DistinctKeys(ds) && WellKeyed(ds)
      && forall k :: Lookup(ds, k) == FirstWithKey(pieces, k)
  {
    var k0 := DirectiveKey(pieces[0]);
    ConsKeys(k0, pieces[0], rest, w);
    var ds := [(k0, pieces[0])] + w;
    assert ds[1..] == w;
    forall k ensures Lookup(ds, k) == FirstWithKey(pieces, k) {
      if k != k0 {
        assert Lookup(ds, k) == Lookup(w, k);
      }
    }
  }

  /** Putting a well-keyed pair in front of a list that lacks its key keeps keys distinct and well kept. */
  lemma ConsKeys(k0: string, p0: string, rest: Directives, w: Directives)
    requires k0 == DirectiveKey(p0)
    requires DistinctKeys(rest) && WellKeyed(rest)
    requires w == Without(rest, k0)
    ensures DistinctKeys([(k0, p0)] + w) && WellKeyed([(k0, p0)] + w)
  {
    SubWellKeyed(rest, w);
    ConsDistinct(k0, p0, w);
    ConsWellKeyed(k0, p0, w);
  }

  /** A list drawn from a well-keyed list is well keyed. */
  lemma SubWellKeyed(ds: Directives, sub: Directives)
    requires WellKeyed(ds)
    requires forall p :: p in sub ==> p in ds
    ensures WellKeyed(sub)
  {
    forall i | 0 <= i < |sub| ensures sub[i].0 == DirectiveKey(sub[i].1) {
      assert sub[i] in sub;
      var m :| 0 <= m < |ds| && ds[m] == sub[i];
    }
  }

  lemma ConsDistinct(k0: string, p0: string, w: Directives)
    requires DistinctKeys(w)
    requires forall p :: p in w ==> p.0 != k0
    ensures DistinctKeys([(k0, p0)] + w)
  {
    var ds := [(k0, p0)] + w;
    forall i, j | 0 <= i < j < |ds| ensures ds[i].0 != ds[j].0 {
      assert ds[j] == w[j - 1];
      assert w[j - 1] in w;
      if i > 0 {
        assert ds[i] == w[i - 1];
      }
    }
  }

  lemma ConsWellKeyed(k0: string, p0: string, w: Directives)
    requires k0 == DirectiveKey(p0) && WellKeyed(w)
    ensures WellKeyed([(k0, p0)] + w)
  {
    var ds := [(k0, p0)] + w;
    forall i | 0 <= i < |ds| ensures ds[i].0 == DirectiveKey(ds[i].1) {
      if i > 0 {
        assert ds[i] == w[i - 1];
      }
    }
  }

  // ---------------------------------------------------------------------------
  // Rebuilding the policy
  // ---------------------------------------------------------------------------

  /** The keys whose directives the configuration rewrites. */
  predicate IsConsumed(cs: Config, k: string)
  {
    || k == Sandbox
    || (cs.scripts.Some? && k == ScriptSrc)
    || (cs.styles.Some? && k == StyleSrc)
    || (cs.images.Some? && k == ImgSrc)
  }

  /** 1 when the option object is set, 0 when it is null. */
  function IfSet<T>(o: Option<T>): nat
  {
    if o.Some? then 1 else 0
  }

  /** The script-src text, when scripts are configured. */
  function ScriptsPart(cs: Config, ds: Directives): (p: seq<string>)
    ensures |p| == IfSet(cs.scripts)
    ensures cs.scripts.Some? ==> p[0] == ScriptsText(Lookup(ds, ScriptSrc), cs.scripts.value)
  {
    if cs.scripts.Some? then [ScriptsText(Lookup(ds, ScriptSrc), cs.scripts.value)] else []
  }

  /** The style-src text, when styles are configured. */
  function StylesPart(cs: Config, ds: Directives): (p: seq<string>)
    ensures |p| == IfSet(cs.styles)
    ensures cs.styles.Some? ==> p[0] == StylesText(Lookup(ds, StyleSrc), cs.styles.value)
  {
    if cs.styles.Some? then [StylesText(Lookup(ds, StyleSrc), cs.styles.value)] else []
  }

  /** The img-src text, when images are configured. */
  function ImagesPart(cs: Config, ds: Directives): (p: seq<string>)
    ensures |p| == IfSet(cs.images)
    ensures cs.images.Some? ==> p[0] == ImagesText(Lookup(ds, ImgSrc), cs.images.value)
  {
    if cs.images.Some? then [ImagesText(Lookup(ds, ImgSrc), cs.images.value)] else []
  }

  /**
   * The generated directive texts, in emission order: the sandbox always,
   * then script-src, style-src and img-src, each exactly when its option
   * object is set (see GeneratedLayout).
   */
  function Generated(cs: Config, ds: Directives): (g: seq<string>)
    ensures |g| == 1 + IfSet(cs.scripts) + IfSet(cs.styles) + IfSet(cs.images)
    ensures g[0] == SandboxText(Lookup(ds, Sandbox), cs.scripts.Some?, cs.allowSameOrigin)
  {
    [SandboxText(Lookup(ds, Sandbox), cs.scripts.Some?, cs.allowSameOrigin)]
    + ScriptsPart(cs, ds) + StylesPart(cs, ds) + ImagesPart(cs, ds)
  }

  /**
   * Each of script-src, style-src and img-src is generated exactly when its
   * option object is set, in that order after the sandbox, rebuilt from the
   * policy's own directive of that key.
   */
  lemma GeneratedLayout(cs: Config, ds: Directives)
    ensures var g := Generated(cs, ds);
      && (cs.scripts.Some? ==> g[1] == ScriptsText(Lookup(ds, ScriptSrc), cs.scripts.value))
      && (cs.styles.Some? ==> g[1 + IfSet(cs.scripts)] == StylesText(Lookup(ds, StyleSrc), cs.styles.value))
      && (cs.images.Some? ==>
            g[1 + IfSet(cs.scripts) + IfSet(cs.styles)] == ImagesText(Lookup(ds, ImgSrc), cs.images.value))
  {
    if cs.scripts.Some? {
      ScriptsGenerated(cs, ds);
    }
    if cs.styles.Some? {
      StylesGenerated(cs, ds);
    }
    if cs.images.Some? {
      ImagesGenerated(cs, ds);
    }
  }

  /** With scripts configured, script-src comes right after the sandbox. */
  lemma ScriptsGenerated(cs: Config, ds: Directives)
    requires cs.scripts.Some?
    ensures Generated(cs, ds)[1] == ScriptsText(Lookup(ds, ScriptSrc), cs.scripts.value)
  {
    var sandbox := [SandboxText(Lookup(ds, Sandbox), cs.scripts.Some?, cs.allowSameOrigin)];
    var sc, st, im := ScriptsPart(cs, ds), StylesPart(cs, ds), ImagesPart(cs, ds);
    assert Generated(cs, ds)[|sandbox|] == sc[0] by {
      assert Generated(cs, ds) == sandbox + sc + st + im;
      PlacedSecond(sandbox, sc, st, im);
    }
  }

  /** With styles configured, style-src comes after the sandbox and any script-src. */
  lemma StylesGenerated(cs: Config, ds: Directives)
    requires cs.styles.Some?
    ensures Generated(cs, ds)[1 + IfSet(cs.scripts)] == StylesText(Lookup(ds, StyleSrc), cs.styles.value)
  {
    var sandbox := [SandboxText(Lookup(ds, Sandbox), cs.scripts.Some?, cs.allowSameOrigin)];
    var sc, st, im := ScriptsPart(cs, ds), StylesPart(cs, ds), ImagesPart(cs, ds);
    assert Generated(cs, ds)[|sandbox| + |sc|] == st[0] by {
      assert Generated(cs, ds) == sandbox + sc + st + im;
      PlacedThird(sandbox, sc, st, im);
    }
  }

  /** With images configured, img-src comes after the sandbox, script-src and style-src that precede it. */
  lemma ImagesGenerated(cs: Config, ds: Directives)
    requires cs.images.Some?
    ensures Generated(cs, ds)[1 + IfSet(cs.scripts) + IfSet(cs.styles)] == ImagesText(Lookup(ds, ImgSrc), cs.images.value)
  {
    var sandbox := [SandboxText(Lookup(ds, Sandbox), cs.scripts.Some?, cs.allowSameOrigin)];
    var sc, st, im := ScriptsPart(cs, ds), StylesPart(cs, ds), ImagesPart(cs, ds);
    assert Generated(cs, ds)[|sandbox| + |sc| + |st|] == im[0] by {
      assert Generated(cs, ds) == sandbox + sc + st + im;
      PlacedFourth(sandbox, sc, st, im);
    }
  }

  /** Where the head of the second, third and fourth part of a concatenation lands. */
  lemma PlacedSecond(a: seq<string>, b: seq<string>, c: seq<string>, d: seq<string>)
    requires |b| > 0
    ensures (a + b + c + d)[|a|] == b[0]
  {
    assert a + b + c + d == a + (b + c + d);
  }

  lemma PlacedThird(a: seq<string>, b: seq<string>, c: seq<string>, d: seq<string>)
    requires |c| > 0
    ensures (a + b + c + d)[|a| + |b|] == c[0]
  {
    assert a + b + c + d == (a + b) + (c + d);
  }

  lemma PlacedFourth(a: seq<string>, b: seq<string>, c: seq<string>, d: seq<string>)
    requires |d| > 0
    ensures (a + b + c + d)[|a| + |b| + |c|] == d[0]
  {
  }

  /** The directives left once the rewritten keys have been removed, in their order. */
  function Remaining(cs: Config, ds: Directives): (r: Directives)
    ensures forall k :: Lookup(r, k) == if IsConsumed(cs, k) then None else Lookup(ds, k)
    ensures forall p :: p in r ==> p in ds
    ensures DistinctKeys(ds) ==> DistinctKeys(r)
  {
    var r0 := Without(ds, Sandbox);
    var r1 := WithoutIf(r0, ScriptSrc, cs.scripts.Some?);
    var r2 := WithoutIf(r1, StyleSrc, cs.styles.Some?);
    var r3 := WithoutIf(r2, ImgSrc, cs.images.Some?);
    assert forall k :: Lookup(r3, k) == if IsConsumed(cs, k) then None else Lookup(ds, k) by {
      forall k ensures Lookup(r3, k) == if IsConsumed(cs, k) then None else Lookup(ds, k) {
        assert Lookup(r1, k) == if IsConsumed(Config(cs.scripts, None, None, false), k) then None else Lookup(ds, k);
        assert Lookup(r2, k) == if IsConsumed(Config(cs.scripts, cs.styles, None, false), k) then None else Lookup(ds, k);
      }
    }
    r3
  }

  function Values(ds: Directives): (vs: seq<string>)
    ensures |vs| == |ds| && forall i :: 0 <= i < |ds| ==> vs[i] == ds[i].1
  {
    if |ds| == 0 then [] else [ds[0].1] + Values(ds[1..])
  }

  /** Each directive followed by `"; "`. */
  function Terminated(xs: seq<string>): (ys: seq<string>)
    ensures |ys| == |xs| && forall i :: 0 <= i < |xs| ==> ys[i] == xs[i] + "; "
  {
    if |xs| == 0 then [] else [xs[0] + "; "] + Terminated(xs[1..])
  }

  /** The emitted directives: the generated ones, then every remaining one as written, each ended by `"; "`. */
  function Emitted(cs: Config, ds: Directives): seq<string>
  {
    Terminated(Generated(cs, ds) + Values(Remaining(cs, ds)))
  }

  lemma TerminatedShape(xs: seq<string>)
    requires |xs| >= 1
    ensures |Terminated(xs)| >= 1 && Terminated(xs)[0] == xs[0] + "; "
    ensures EndsWith(Terminated(xs)[|xs| - 1], "; ")
  {
    var e := Terminated(xs);
    assert e[|e| - 1] == xs[|xs| - 1] + "; ";
  }

  /** The concatenation of the texts, in order. */
  function Concat(xs: seq<string>): string
  {
    if |xs| == 0 then "" else xs[0] + Concat(xs[1..])
  }

  /** The concatenation starts with its first text and ends the way its last one ends. */
  lemma {:induction false} ConcatEnds(xs: seq<string>, tail: string)
    requires |xs| > 0 && EndsWith(xs[|xs| - 1], tail)
    ensures StartsWith(Concat(xs), xs[0])
    ensures EndsWith(Concat(xs), tail)
  {
    assert Concat(xs) == xs[0] + Concat(xs[1..]);
    assert (xs[0] + Concat(xs[1..]))[..|xs[0]|] == xs[0];
    if |xs| > 1 {
      ConcatEnds(xs[1..], tail);
    } else {
      assert Concat(xs) == xs[0] + "";
    }
  }

  /** The policy's directives: the pieces between `;`, Java's split dropping trailing empty ones. */
  function PolicyDirectives(policy: string): Directives
  {
    Collect(Split(policy, ';'))
  }

  /**
   * createAlteredContentSecurityPolicy. With the override disabled the
   * policy comes back untouched; a blank policy gives null; otherwise the
   * emitted directives, concatenated and trimmed.
   */
  function AlteredPolicy(cs: Config, overrideAllowed: bool, policy: Option<string>): (r: Option<string>)
    ensures !overrideAllowed ==> r == policy
    ensures overrideAllowed ==> (r.None? <==> IsBlank(policy))
    ensures overrideAllowed && r.Some? ==>
      && StartsWith(r.value, Sandbox) && EndsWith(r.value, ";") && Trim(r.value) == r.value
      && r.value + " " == Concat(Emitted(cs, PolicyDirectives(policy.value)))
  {
    if !overrideAllowed then policy
    else if IsBlank(policy) then None
    else
      var ds := PolicyDirectives(policy.value);
      var c := Concat(Emitted(cs, ds));
      EmittedShape(cs, ds);
      TrimBeforeFinalSpace(c);
      Some(Trim(c))
  }

  /** The concatenated directives start with `sandbox` and end with `"; "`. */
  lemma EmittedShape(cs: Config, ds: Directives)
    requires WellKeyed(ds)
    ensures var c := Concat(Emitted(cs, ds));
      StartsWith(c, Sandbox) && EndsWith(c, "; ")
  {
    var g := Generated(cs, ds);
    assert StartsWith(g[0], Sandbox) by {
      SandboxStartsWithKey(ds, cs.scripts.Some?, cs.allowSameOrigin);
    }
    var xs := g + Values(Remaining(cs, ds));
    assert xs[0] == g[0];
    TerminatedConcatShape(xs, g[0]);
    assert Emitted(cs, ds) == Terminated(xs);
  }

  /** Terminating texts and concatenating them starts with the first text and ends with `"; "`. */
  lemma TerminatedConcatShape(xs: seq<string>, first: string)
    requires |xs| >= 1 && xs[0] == first && StartsWith(first, Sandbox)
    ensures StartsWith(Concat(Terminated(xs)), Sandbox) && EndsWith(Concat(Terminated(xs)), "; ")
  {
    var e := Terminated(xs);
    TerminatedShape(xs);
    ConcatEnds(e, "; ");
    PrefixOfPrefix(Concat(e), first + "; ", first);
    PrefixOfPrefix(Concat(e), first, Sandbox);
  }

  lemma PrefixOfPrefix(s: string, p: string, q: string)
    requires StartsWith(s, p) && StartsWith(p, q)
    ensures StartsWith(s, q)
  {
    assert s[..|q|] == s[..|p|][..|q|];
  }

  lemma PrefixOfConcat(t: string, a: string, b: string, p: string)
    requires StartsWith(t, p)
    ensures StartsWith(t + a + b, p)
  {
    assert (t + a + b)[..|t|] == t;
    PrefixOfPrefix(t + a + b, t, p);
  }

  /** A text that starts with `sandbox` and ends with `"; "` trims to all but its final space. */
  lemma TrimBeforeFinalSpace(c: string)
    requires StartsWith(c, Sandbox) && EndsWith(c, "; ")
    ensures var t := c[..|c| - 1];
      && Trim(c) == t && t + " " == c
      && StartsWith(t, Sandbox) && EndsWith(t, ";") && Trim(t) == t
  {
    var t := c[..|c| - 1];
    assert c[0] == 's';
    assert c[|c| - 2] == ';';
    assert c[|c| - 1] == ' ';
    assert IsTrimmedSlice(c, 0, |c| - 1);
    TrimSlice(c, 0, |c| - 1);
    assert t + " " == c;
    assert t[..|Sandbox|] == c[..|Sandbox|];
    assert IsTrimmedSlice(t, 0, |t|);
    TrimSlice(t, 0, |t|);
  }

  /** The sandbox text starts with `sandbox`, whether it comes from the policy or from the default. */
  lemma SandboxStartsWithKey(ds: Directives, scripts: bool, sameOrigin: bool)
    requires WellKeyed(ds)
    ensures StartsWith(SandboxText(Lookup(ds, Sandbox), scripts, sameOrigin), Sandbox)
  {
    var existing := Lookup(ds, Sandbox);
    LookupKey(ds, Sandbox);
    if existing.None? {
      DefaultSandboxTrim();
    } else {
      KeyIsPrefix(existing.value, Sandbox);
    }
    SandboxTextStarts(existing, scripts, sameOrigin);
  }

  lemma DefaultSandboxTrim()
    ensures Trim(DefaultSandbox) == Sandbox
  {
    assert IsTrimmedSlice(DefaultSandbox, 0, 7);
    TrimSlice(DefaultSandbox, 0, 7);
  }

  /** A directive's trimmed text starts with its non-empty key. */
  lemma KeyIsPrefix(d: string, k: string)
    requires DirectiveKey(d) == k && |k| > 0
    ensures StartsWith(Trim(d), k)
  {
  }

  /** The sandbox text starts with whatever its trimmed base starts with. */
  lemma SandboxTextStarts(existing: Option<string>, scripts: bool, sameOrigin: bool)
    requires StartsWith(Trim(existing.GetOr(DefaultSandbox)), Sandbox)
    ensures StartsWith(SandboxText(existing, scripts, sameOrigin), Sandbox)
  {
    var d := existing.GetOr(DefaultSandbox);
    var t := Trim(d);
    var r := SandboxText(existing, scripts, sameOrigin);
    var a := Suffix(scripts && !Contains(d, AllowScripts), AllowScripts);
    var b := Suffix(sameOrigin && !Contains(d, AllowSameOrigin), AllowSameOrigin);
    assert r == t + a + b by {
      assert |t| >= |Sandbox|;
    }
    PrefixOfConcat(t, a, b, Sandbox);
  }

  lemma {:induction false} LookupKey(ds: Directives, k: string)
    requires WellKeyed(ds)
    ensures Lookup(ds, k).Some? ==> DirectiveKey(Lookup(ds, k).value) == k
  {
    if |ds| > 0 && ds[0].0 != k {
      assert WellKeyed(ds[1..]) by {
        forall i | 0 <= i < |ds[1..]| ensures ds[1..][i].0 == DirectiveKey(ds[1..][i].1) {
          assert ds[1..][i] == ds[i + 1];
        }
      }
      LookupKey(ds[1..], k);
    }
  }

  // ---------------------------------------------------------------------------
  // Properties of the rewritten policy
  // ---------------------------------------------------------------------------

  /**
   * The sandbox directive of the result: the policy's first `sandbox`
   * directive (or `sandbox`) with `allow-scripts` present exactly when scripts
   * are configured or it was there already, and `allow-same-origin` exactly
   * when same origin is allowed or it was there already.
   */
  lemma RewrittenSandbox(cs: Config, policy: string)
    requires !IsBlank(Some(policy))
    ensures var existing := FirstWithKey(Split(policy, ';'), Sandbox);
      var sb := SandboxText(existing, cs.scripts.Some?, cs.allowSameOrigin);
      && StartsWith(AlteredPolicy(cs, true, Some(policy)).value, sb + ";")
      && (Contains(sb, AllowScripts) <==> cs.scripts.Some? || (existing.Some? && Contains(existing.value, AllowScripts)))
      && (Contains(sb, AllowSameOrigin) <==> cs.allowSameOrigin || (existing.Some? && Contains(existing.value, AllowSameOrigin)))
  {
    var ds := PolicyDirectives(policy);
    assert Lookup(ds, Sandbox) == FirstWithKey(Split(policy, ';'), Sandbox);
    PolicyStartsWithSandbox(cs, policy);
    SandboxTokens(Lookup(ds, Sandbox), cs.scripts.Some?, cs.allowSameOrigin);
  }

  /** The rewritten policy opens with the sandbox directive and its `;`. */
  lemma PolicyStartsWithSandbox(cs: Config, policy: string)
    requires !IsBlank(Some(policy))
    ensures var sb := SandboxText(Lookup(PolicyDirectives(policy), Sandbox), cs.scripts.Some?, cs.allowSameOrigin);
      StartsWith(AlteredPolicy(cs, true, Some(policy)).value, sb + ";")
  {
    var ds := PolicyDirectives(policy);
    var g := Generated(cs, ds);
    var c := Concat(Emitted(cs, ds));
    assert StartsWith(c, g[0] + "; ") by {
      var xs := g + Values(Remaining(cs, ds));
      assert xs[0] == g[0];
      ConcatOpens(xs);
      assert Emitted(cs, ds) == Terminated(xs);
    }
    var r := AlteredPolicy(cs, true, Some(policy)).value;
    assert r + " " == c;
    OpensWith(r, g[0]);
  }

  /** Terminated texts, concatenated, open with the first text and its `"; "`. */
  lemma ConcatOpens(xs: seq<string>)
    requires |xs| >= 1
    ensures StartsWith(Concat(Terminated(xs)), xs[0] + "; ")
  {
    TerminatedShape(xs);
    ConcatEnds(Terminated(xs), "; ");
  }

  /** A text that, with a space added, starts with `sb + "; "` starts with `sb + ";"`. */
  lemma OpensWith(r: string, sb: string)
    requires StartsWith(r + " ", sb + "; ")
    ensures StartsWith(r, sb + ";")
  {
    assert (r + " ")[..|sb| + 1] == (sb + "; ")[..|sb| + 1];
    assert (sb + "; ")[..|sb| + 1] == sb + ";";
    assert (r + " ")[..|sb| + 1] == r[..|sb| + 1];
  }

  /** Which of the two allowances the sandbox text holds. */
  lemma SandboxTokens(existing: Option<string>, scripts: bool, sameOrigin: bool)
    ensures var sb := SandboxText(existing, scripts, sameOrigin);
      && (Contains(sb, AllowScripts) <==> scripts || (existing.Some? && Contains(existing.value, AllowScripts)))
      && (Contains(sb, AllowSameOrigin) <==> sameOrigin || (existing.Some? && Contains(existing.value, AllowSameOrigin)))
  {
    NotContainsLonger(DefaultSandbox, AllowScripts);
    NotContainsLonger(DefaultSandbox, AllowSameOrigin);
  }

  /**
   * Every directive whose key the configuration does not rewrite reaches the
   * result unchanged: the first one with that key, once, and no other
   * directive with that key.
   */
  lemma PassedThrough(cs: Config, policy: string, k: string)
    requires !IsConsumed(cs, k)
    ensures var pieces := Split(policy, ';');
      var rest := Values(Remaining(cs, PolicyDirectives(policy)));
      && (forall d :: d in rest && DirectiveKey(d) == k ==> FirstWithKey(pieces, k) == Some(d))
      && (FirstWithKey(pieces, k).Some? ==> FirstWithKey(pieces, k).value in rest)
  {
    var pieces := Split(policy, ';');
    var ds := Collect(pieces);
    assert Lookup(ds, k) == FirstWithKey(pieces, k);
    var rem := Remaining(cs, ds);
    assert Lookup(rem, k) == Lookup(ds, k);
    KeptDirective(ds, rem, k);
  }

  /**
   * A sublist of well-keyed pairs with distinct keys that still finds key k
   * holds, among its values, exactly one directive with key k: the one the
   * whole list finds.
   */
  lemma KeptDirective(ds: Directives, rem: Directives, k: string)
    requires DistinctKeys(ds) && WellKeyed(ds)
    requires forall p :: p in rem ==> p in ds
    requires Lookup(rem, k) == Lookup(ds, k)
    ensures forall d :: d in Values(rem) && DirectiveKey(d) == k ==> Lookup(ds, k) == Some(d)
    ensures Lookup(ds, k).Some? ==> Lookup(ds, k).value in Values(rem)
  {
    var rest := Values(rem);
    forall d | d in rest && DirectiveKey(d) == k
      ensures Lookup(ds, k) == Some(d)
    {
      var i :| 0 <= i < |rest| && rest[i] == d;
      assert rem[i] in rem;
      var m :| 0 <= m < |ds| && ds[m] == rem[i];
      assert ds[m].0 == k;
      LookupAt(ds, m);
    }
    if Lookup(ds, k).Some? {
      LookupFound(rem, k);
    }
  }

  /** In a list with distinct keys, the lookup of a pair's key finds that pair. */
  lemma {:induction false} LookupAt(ds: Directives, m: int)
    requires DistinctKeys(ds) && 0 <= m < |ds|
    ensures Lookup(ds, ds[m].0) == Some(ds[m].1)
  {
    if m > 0 {
      assert ds[0].0 != ds[m].0;
      assert ds[1..][m - 1] == ds[m];
      LookupAt(ds[1..], m - 1);
    }
  }

  /** A found lookup is one of the values. */
  lemma {:induction false} LookupFound(ds: Directives, k: string)
    requires Lookup(ds, k).Some?
    ensures Lookup(ds, k).value in Values(ds)
  {
    if ds[0].0 != k {
      LookupFound(ds[1..], k);
      assert Values(ds) == [ds[0].1] + Values(ds[1..]);
    }
  }

  // ---------------------------------------------------------------------------
  // The iframe sandbox attribute
  // ---------------------------------------------------------------------------

  /** createIframeSandboxAttributes: the allowances the configuration asks for, or nothing when overriding is disabled. */
  function IframeSandboxAttributes(cs: Config, overrideAllowed: bool): (r: string)
    ensures !overrideAllowed ==> r == ""
    ensures Trim(r) == r
    ensures Contains(r, AllowScripts) <==> overrideAllowed && cs.scripts.Some?
    ensures Contains(r, AllowSameOrigin) <==> overrideAllowed && cs.allowSameOrigin
    ensures r == "" <==> !overrideAllowed || (cs.scripts.None? && !cs.allowSameOrigin)
  {
    if !overrideAllowed then ""
    else
      var s := Suffix(cs.scripts.Some?, AllowScripts) + Suffix(cs.allowSameOrigin, AllowSameOrigin);
      IframeFacts(cs.scripts.Some?, cs.allowSameOrigin);
      Trim(s)
  }

  /** The allowances of the iframe, spelled out case by case. */
  function Allowances(scripts: bool, sameOrigin: bool): string
  {
    if scripts && sameOrigin then AllowScripts + " " + AllowSameOrigin
    else if scripts then AllowScripts
    else if sameOrigin then AllowSameOrigin
    else ""
  }

  lemma IframeFacts(scripts: bool, sameOrigin: bool)
    ensures var t := Trim(Suffix(scripts, AllowScripts) + Suffix(sameOrigin, AllowSameOrigin));
      && t == Allowances(scripts, sameOrigin)
      && (Contains(t, AllowScripts) <==> scripts)
      && (Contains(t, AllowSameOrigin) <==> sameOrigin)
      && Trim(t) == t
  {
    IframeTrim(scripts, sameOrigin);
    AllowancesTokens(scripts, sameOrigin);
  }

  lemma IframeTrim(scripts: bool, sameOrigin: bool)
    ensures Trim(Suffix(scripts, AllowScripts) + Suffix(sameOrigin, AllowSameOrigin)) == Allowances(scripts, sameOrigin)
  {
    var s := Suffix(scripts, AllowScripts) + Suffix(sameOrigin, AllowSameOrigin);
    var w := Allowances(scripts, sameOrigin);
    if scripts || sameOrigin {
      assert s == " " + w;
      TrimLeadingSpace(w);
    } else {
      assert IsTrimmedSlice(s, 0, 0);
      TrimSlice(s, 0, 0);
    }
  }

  /** A space in front of a text with non-trimmable ends is all that trimming removes. */
  lemma TrimLeadingSpace(w: string)
    requires w != [] && !IsTrimmable(w[0]) && !IsTrimmable(w[|w| - 1])
    ensures Trim(" " + w) == w
  {
    var s := " " + w;
    assert IsTrimmedSlice(s, 1, |s|);
    TrimSlice(s, 1, |s|);
    assert s[1..] == w;
  }

  lemma AllowancesTokens(scripts: bool, sameOrigin: bool)
    ensures var t := Allowances(scripts, sameOrigin);
      && (Contains(t, AllowScripts) <==> scripts)
      && (Contains(t, AllowSameOrigin) <==> sameOrigin)
      && Trim(t) == t
  {
    var t := Allowances(scripts, sameOrigin);
    TokensDiffer();
    if scripts && sameOrigin {
      ContainsSelf(AllowScripts);
      ContainsSelf(AllowSameOrigin);
      ContainsSpaceJoined(AllowScripts, AllowSameOrigin, AllowScripts);
      ContainsSpaceJoined(AllowScripts, AllowSameOrigin, AllowSameOrigin);
    } else if scripts {
      ContainsSelf(AllowScripts);
    } else if sameOrigin {
      ContainsSelf(AllowSameOrigin);
    }
    assert IsTrimmedSlice(t, 0, |t|);
    TrimSlice(t, 0, |t|);
  }

  /** The attribute for a configuration with overriding enabled is its allowances, spelled out. */
  lemma IframeEnabled(cs: Config)
    ensures IframeSandboxAttributes(cs, true) == Allowances(cs.scripts.Some?, cs.allowSameOrigin)
  {
    IframeFacts(cs.scripts.Some?, cs.allowSameOrigin);
  }

  /** Scripts and same origin both allowed. */
  lemma IframeBothExample(cs: Config, expected: string)
    requires cs == Config(Some(Scripts(false, false)), None, None, true)
    requires expected == "allow-scripts allow-same-origin"
    ensures IframeSandboxAttributes(cs, true) == expected
  {
    IframeEnabled(cs);
    BothSpelling(expected);
  }

  lemma BothSpelling(expected: string)
    requires expected == "allow-scripts allow-same-origin"
    ensures Allowances(true, true) == expected
  {
    assert AllowScripts + " " + AllowSameOrigin == expected;
  }

  lemma IframeScriptsExample()
    ensures IframeSandboxAttributes(Config(Some(Scripts(false, false)), None, None, false), true) == "allow-scripts"
  {
    IframeEnabled(Config(Some(Scripts(false, false)), None, None, false));
  }

  lemma IframeSameOriginExample()
    ensures IframeSandboxAttributes(Config(None, None, None, true), true) == "allow-same-origin"
  {
    IframeEnabled(Config(None, None, None, true));
  }

  lemma IframeNoneExample()
    ensures IframeSandboxAttributes(Config(None, None, None, false), true) == ""
    ensures IframeSandboxAttributes(Config(Some(Scripts(false, false)), None, None, true), false) == ""
  {
    IframeEnabled(Config(None, None, None, false));
  }

  /** A blank policy is dropped, and a disabled override leaves the policy as it was. */
  lemma AlteredPolicyEdgeExamples()
    ensures AlteredPolicy(NothingConfigured, true, Some("")) == None
    ensures AlteredPolicy(NothingConfigured, true, Some("  ")) == None
    ensures AlteredPolicy(Config(Some(Scripts(false, false)), Some(Styles(false)), None, true), false, Some("sandbox allow-scripts"))
            == Some("sandbox allow-scripts")
  {
    assert IsBlank(Some("")) && IsBlank(Some("  ")) by {
      assert IsTrimmedSlice("  ", 0, 0);
      TrimSlice("  ", 0, 0);
      assert IsTrimmedSlice("", 0, 0);
      TrimSlice("", 0, 0);
    }
  }

  /** A policy with no `;` and no `sandbox` directive keeps its one directive after the generated ones. */
  lemma InvalidPolicyExample(cs: Config, p: string)
    requires cs == Config(Some(Scripts(false, false)), Some(Styles(false)), None, false) && p == "invalid-policy"
    ensures AlteredPolicy(cs, true, Some(p))
            == Some(JoinedPolicy(["sandbox allow-scripts", "script-src 'self'", "style-src 'self'", "invalid-policy"]))
  {
    InvalidPolicyTexts(cs, p);
    PolicyOfTexts(cs, true, p, ["sandbox allow-scripts", DefaultScriptSrc, DefaultStyleSrc, p]);
  }

  lemma InvalidPolicyTexts(cs: Config, p: string)
    requires cs == Config(Some(Scripts(false, false)), Some(Styles(false)), None, false) && p == "invalid-policy"
    ensures !IsBlank(Some(p))
    ensures Generated(cs, PolicyDirectives(p)) + Values(Remaining(cs, PolicyDirectives(p)))
            == ["sandbox allow-scripts", DefaultScriptSrc, DefaultStyleSrc, p]
  {
    InvalidPolicyDirectives(p);
    InvalidPolicyGenerated(cs, p);
    FourItems("sandbox allow-scripts", DefaultScriptSrc, DefaultStyleSrc, p);
  }

  lemma InvalidPolicyDirectives(p: string)
    requires p == "invalid-policy"
    ensures !IsBlank(Some(p))
    ensures PolicyDirectives(p) == [(p, p)]
  {
    PlainEnds(p);
    assert ';' !in p;
    assert Split(p, ';') == [p];
    PlainKey(p);
    assert Collect([p]) == [(p, p)] + Without(Collect([]), p);
  }

  lemma InvalidPolicyGenerated(cs: Config, p: string)
    requires cs == Config(Some(Scripts(false, false)), Some(Styles(false)), None, false) && p == "invalid-policy"
    ensures Generated(cs, [(p, p)]) == ["sandbox allow-scripts", DefaultScriptSrc, DefaultStyleSrc]
    ensures Values(Remaining(cs, [(p, p)])) == [p]
  {
    var ds := [(p, p)];
    assert Remaining(cs, ds) == ds by {
      assert |p| != |Sandbox| && |p| != |ScriptSrc| && |p| != |StyleSrc|;
      WithoutOther(p, p, Sandbox);
      WithoutOther(p, p, ScriptSrc);
      WithoutOther(p, p, StyleSrc);
    }
    assert Values(ds) == [p];
    assert Lookup(ds, Sandbox) == None && Lookup(ds, ScriptSrc) == None && Lookup(ds, StyleSrc) == None;
    DefaultSandboxWithScripts();
    assert ScriptsText(None, Scripts(false, false)) == DefaultScriptSrc;
    assert StylesText(None, Styles(false)) == DefaultStyleSrc;
    GeneratedScriptsStyles(cs, ds);
  }

  /** Removing a key from a single directive with another key leaves it. */
  lemma WithoutOther(k: string, v: string, key: string)
    requires k != key
    ensures Without([(k, v)], key) == [(k, v)]
  {
    assert [(k, v)][1..] == [];
  }

  lemma FourItems(a: string, b: string, c: string, d: string)
    ensures [a, b, c] + [d] == [a, b, c, d]
  {
  }

  /** The generated texts of a configuration with scripts and styles but no images. */
  lemma GeneratedScriptsStyles(cs: Config, ds: Directives)
    requires cs.scripts.Some? && cs.styles.Some? && cs.images.None?
    ensures Generated(cs, ds) == [SandboxText(Lookup(ds, Sandbox), true, cs.allowSameOrigin),
                                  ScriptsText(Lookup(ds, ScriptSrc), cs.scripts.value),
                                  StylesText(Lookup(ds, StyleSrc), cs.styles.value)]
  {
    var a := SandboxText(Lookup(ds, Sandbox), true, cs.allowSameOrigin);
    var b := ScriptsText(Lookup(ds, ScriptSrc), cs.scripts.value);
    var c := StylesText(Lookup(ds, StyleSrc), cs.styles.value);
    assert Generated(cs, ds) == [a] + [b] + [c] + [];
    ThreeItems(a, b, c);
  }

  lemma ThreeItems(a: string, b: string, c: string)
    ensures [a] + [b] + [c] + [] == [a, b, c]
  {
  }

  /** With no sandbox directive and scripts configured, the sandbox directive is `sandbox allow-scripts`. */
  lemma DefaultSandboxWithScripts()
    ensures SandboxText(None, true, false) == "sandbox allow-scripts"
  {
    assert Sandbox + " " + AllowScripts == "sandbox allow-scripts";
    DefaultSandboxTrim();
    NotContainsLonger(DefaultSandbox, AllowScripts);
    var r := SandboxText(None, true, false);
    assert r == Sandbox + Suffix(true, AllowScripts) + Suffix(false, AllowSameOrigin);
  }

  /** The rewritten policy of a policy whose texts to emit are known: the texts joined by `"; "`, ending in `;`. */
  lemma PolicyOfTexts(cs: Config, overrideAllowed: bool, policy: string, xs: seq<string>)
    requires overrideAllowed && !IsBlank(Some(policy))
    requires Generated(cs, PolicyDirectives(policy)) + Values(Remaining(cs, PolicyDirectives(policy))) == xs
    ensures AlteredPolicy(cs, overrideAllowed, Some(policy)) == Some(JoinedPolicy(xs))
  {
    var c := Concat(Emitted(cs, PolicyDirectives(policy)));
    assert c == Concat(Terminated(xs));
    ConcatTerminated(xs);
    var r := AlteredPolicy(cs, overrideAllowed, Some(policy)).value;
    assert r + " " == JoinedPolicy(xs) + " ";
    assert r == (r + " ")[..|r|];
  }

  /** Texts each followed by `;`, separated by single spaces: the shape of every rewritten policy. */
  function JoinedPolicy(xs: seq<string>): string
    requires |xs| >= 1
  {
    if |xs| == 1 then xs[0] + ";" else xs[0] + "; " + JoinedPolicy(xs[1..])
  }

  lemma {:induction false} ConcatTerminated(xs: seq<string>)
    requires |xs| >= 1
    ensures Concat(Terminated(xs)) == JoinedPolicy(xs) + " "
  {
    var e := Terminated(xs);
    assert Concat(e) == e[0] + Concat(e[1..]);
    assert e[1..] == Terminated(xs[1..]);
    if |xs| == 1 {
      assert Concat(e[1..]) == "";
    } else {
      ConcatTerminated(xs[1..]);
    }
  }

  /** An existing sandbox directive gains both allowances, and `script-src` gains `'unsafe-inline'`. */
  lemma ExistingSandboxExample(cs: Config, p: string)
    requires cs == Config(Some(Scripts(true, false)), Some(Styles(false)), None, true) && p == "sandbox test-policy"
    ensures AlteredPolicy(cs, true, Some(p))
            == Some(JoinedPolicy(["sandbox test-policy allow-scripts allow-same-origin", "script-src 'self' 'unsafe-inline'", "style-src 'self'"]))
  {
    ExistingSandboxTexts(cs, p);
    PolicyOfTexts(cs, true, p, ["sandbox test-policy allow-scripts allow-same-origin", "script-src 'self' 'unsafe-inline'", DefaultStyleSrc]);
  }

  lemma ExistingSandboxTexts(cs: Config, p: string)
    requires cs == Config(Some(Scripts(true, false)), Some(Styles(false)), None, true) && p == "sandbox test-policy"
    ensures !IsBlank(Some(p))
    ensures Generated(cs, PolicyDirectives(p)) + Values(Remaining(cs, PolicyDirectives(p)))
            == ["sandbox test-policy allow-scripts allow-same-origin", "script-src 'self' 'unsafe-inline'", DefaultStyleSrc]
  {
    var ds := [(Sandbox, p)];
    var sb := "sandbox test-policy allow-scripts allow-same-origin";
    var sc := "script-src 'self' 'unsafe-inline'";
    assert Remaining(cs, ds) == [] by {
      assert Without(ds, Sandbox) == [];
    }
    assert !IsBlank(Some(p)) by {
      PlainEnds(p);
    }
    ExistingSandboxDirectives(p);
    assert Generated(cs, ds) == [sb, sc, DefaultStyleSrc] by {
      ExistingSandboxText();
      InlineScriptsText();
      assert Lookup(ds, Sandbox) == Some(p) && Lookup(ds, ScriptSrc) == None && Lookup(ds, StyleSrc) == None;
      assert StylesText(None, Styles(false)) == DefaultStyleSrc;
      GeneratedScriptsStyles(cs, ds);
    }
    NothingAfter([sb, sc, DefaultStyleSrc]);
  }

  lemma NothingAfter(xs: seq<string>)
    ensures xs + [] == xs
  {
  }

  lemma ExistingSandboxDirectives(p: string)
    requires p == "sandbox test-policy"
    ensures PolicyDirectives(p) == [(Sandbox, p)]
  {
    assert ';' !in p;
    assert Split(p, ';') == [p];
    assert p == Sandbox + " " + "test-policy";
    KeyBeforeSpace(Sandbox, "test-policy");
    assert Collect([p]) == [(Sandbox, p)] + Without(Collect([]), Sandbox);
  }

  /** The key of `w + " " + rest` is w, for w without spaces and non-trimmable ends on both sides. */
  lemma KeyBeforeSpace(w: string, rest: string)
    requires w != [] && w[0] > ' ' && ' ' !in w
    requires rest != [] && rest[|rest| - 1] > ' '
    ensures DirectiveKey(w + " " + rest) == w
  {
    var p := w + " " + rest;
    PlainEnds(p);
    TakeUntilSpace(w, rest);
  }

  lemma ExistingSandboxText()
    ensures SandboxText(Some("sandbox test-policy"), true, true) == "sandbox test-policy allow-scripts allow-same-origin"
  {
    var p := "sandbox test-policy";
    assert 'w' !in p;
    assert p + " " + AllowScripts + " " + AllowSameOrigin == "sandbox test-policy allow-scripts allow-same-origin";
    SandboxGainsBoth(p);
  }

  /** A trimmed sandbox directive with no `w` in it gains both allowances. */
  lemma SandboxGainsBoth(p: string)
    requires p != [] && p[0] > ' ' && p[|p| - 1] > ' ' && 'w' !in p
    ensures SandboxText(Some(p), true, true) == p + " " + AllowScripts + " " + AllowSameOrigin
  {
    PlainEnds(p);
    WithoutW(p);
    assert SandboxText(Some(p), true, true) == p + Suffix(true, AllowScripts) + Suffix(true, AllowSameOrigin);
    SpacedAssoc(p, AllowScripts, AllowSameOrigin);
  }

  /** Both allowances spell a `w`, so a text without one contains neither. */
  lemma WithoutW(p: string)
    requires 'w' !in p
    ensures !Contains(p, AllowScripts) && !Contains(p, AllowSameOrigin)
  {
    assert AllowScripts[4] == 'w' && AllowSameOrigin[4] == 'w';
    NotContainsMissingChar(p, AllowScripts, 'w');
    NotContainsMissingChar(p, AllowSameOrigin, 'w');
  }

  lemma SpacedAssoc(p: string, x: string, y: string)
    ensures p + Suffix(true, x) + Suffix(true, y) == p + " " + x + " " + y
  {
  }

  lemma InlineScriptsText()
    ensures ScriptsText(None, Scripts(true, false)) == "script-src 'self' 'unsafe-inline'"
  {
    assert DefaultScriptSrc + " " + UnsafeInline == "script-src 'self' 'unsafe-inline'";
    assert 'u' !in DefaultScriptSrc;
    ScriptsGainInline(None);
  }

  /** A `script-src` base without `u` gains `'unsafe-inline'` alone when only inline scripts are allowed. */
  lemma ScriptsGainInline(existing: Option<string>)
    requires 'u' !in SourceBase(existing, DefaultScriptSrc)
    ensures ScriptsText(existing, Scripts(true, false)) == SourceBase(existing, DefaultScriptSrc) + " " + UnsafeInline
  {
    var base := SourceBase(existing, DefaultScriptSrc);
    NotContainsMissingChar(base, UnsafeInline, 'u');
    var r := ScriptsText(existing, Scripts(true, false));
    assert r == base + Suffix(true, UnsafeInline) + Suffix(false, UnsafeEval);
  }

  /** A text whose ends are not trimmable is its own trim. */
  lemma PlainEnds(p: string)
    requires p != [] && p[0] > ' ' && p[|p| - 1] > ' '
    ensures Trim(p) == p
  {
    assert IsTrimmedSlice(p, 0, |p|);
    TrimSlice(p, 0, |p|);
  }

  /** The text before the first space of `w + " " + rest`, when w has no space. */
  lemma {:induction false} TakeUntilSpace(w: string, rest: string)
    requires ' ' !in w
    ensures TakeUntil(w + " " + rest, ' ') == w
  {
    if |w| > 0 {
      assert (w + " " + rest)[1..] == w[1..] + " " + rest;
      TakeUntilSpace(w[1..], rest);
      assert [w[0]] + w[1..] == w;
    }
  }

  /** A text with no space and nothing to trim is its own directive key. */
  lemma PlainKey(p: string)
    requires p != [] && forall k :: 0 <= k < |p| ==> p[k] > ' '
    ensures DirectiveKey(p) == p
  {
    assert Trim(p) == p by {
      assert IsTrimmedSlice(p, 0, |p|);
      TrimSlice(p, 0, |p|);
      assert p[0..|p|] == p;
    }
    assert TakeUntil(p, ' ') == p by {
      assert ' ' !in p;
      TakeAllWithoutSeparator(p, ' ');
    }
  }

  /** With no separator in the text, the prefix before the first one is the whole text. */
  lemma TakeAllWithoutSeparator(s: string, sep: char)
    requires sep !in s
    ensures TakeUntil(s, sep) == s
  {
    var r := TakeUntil(s, sep);
    assert |r| == |s|;
    assert r == s[..|s|];
  }

  // ---------------------------------------------------------------------------
  // The "override disabled" warning
  // ---------------------------------------------------------------------------

  const NothingConfigured: Config := Config(None, None, None, false)

  /**
   * The condition under which the disabled path logs its warning, as
   * written: the helper named for "any not null" returns true as soon as one
   * of scripts, images, styles IS null.
   */
  predicate WarnsWhenDisabledAsWritten(cs: Config)
  {
    cs.scripts.None? || cs.images.None? || cs.styles.None? || cs.allowSameOrigin
  }

  /** As written, a configuration that asks for nothing warns, and one that sets every option object does not. */
  lemma WarnsWhenDisabledAsWrittenIsInverted()
    ensures WarnsWhenDisabledAsWritten(NothingConfigured)
    ensures !WarnsWhenDisabledAsWritten(Config(Some(Scripts(false, false)), Some(Styles(false)), Some(Images(false)), false))
  {
  }

  /** The intended condition: warn exactly when the configuration asks for something the disabled override ignores. */
  function WarnsWhenDisabled(cs: Config): (w: bool)
    ensures w <==> cs != NothingConfigured
  {
    cs.scripts.Some? || cs.images.Some? || cs.styles.Some? || cs.allowSameOrigin
  }

  /**
   * The warning decision of both entry points as the source takes it: with
   * overriding disabled, warn when same origin is allowed or when any of
   * scripts, images, styles is null.
   */
  function DisabledWarningAsWritten(cs: Config, overrideAllowed: bool): (w: bool)
    ensures w <==> !overrideAllowed && WarnsWhenDisabledAsWritten(cs)
    ensures !overrideAllowed && cs == NothingConfigured ==> w
  {
    !overrideAllowed && (cs.scripts.None? || cs.images.None? || cs.styles.None? || cs.allowSameOrigin)
  }

  /** The corrected warning decision of both entry points: overriding disabled and something configured. */
  function DisabledWarning(cs: Config, overrideAllowed: bool): (w: bool)
    ensures w ==> !overrideAllowed && cs != NothingConfigured
    ensures !overrideAllowed && cs != NothingConfigured ==> w
  {
    !overrideAllowed && WarnsWhenDisabled(cs)
  }

  /**
   * The source's decision and the corrected one disagree exactly when
   * overriding is disabled, same origin is not allowed, and the three option
   * objects are either all null or all set.
   */
  lemma DisabledWarningDisagreement(cs: Config, overrideAllowed: bool)
    ensures DisabledWarningAsWritten(cs, overrideAllowed) != DisabledWarning(cs, overrideAllowed)
        <==> && !overrideAllowed && !cs.allowSameOrigin
             && ((cs.scripts.None? && cs.images.None? && cs.styles.None?)
                 || (cs.scripts.Some? && cs.images.Some? && cs.styles.Some?))
  {
  }
}
