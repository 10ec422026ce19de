/** The user-agent classifier of org.discotools.gwt.client.Browser: the
    one-argument predicate bank, version extraction and the display string
    "<name> <version> on <platform>". Every predicate works on the string it
    is given; the ones that lower-case do so in ASCII. */
module Browser {
  import opened JavaString

  // ---------------------------------------------------------------------
  // Predicate bank

  predicate IsOpera(userAgent: string)
    ensures IsOpera(userAgent) <==> exists k :: IsAt(Lower(userAgent), "opera", k)
  {
    var ua := Lower(userAgent);
    assert Contains(ua, "opera") ==> IsAt(Lower(userAgent), "opera", IndexOf(ua, "opera"));
    Contains(ua, "opera")
  }

  predicate IsIE(userAgent: string)
    ensures IsIE(userAgent) <==>
      (exists k :: IsAt(Lower(userAgent), "msie", k))
      && (forall k :: !IsAt(Lower(userAgent), "opera", k))
      && (forall k :: !IsAt(Lower(userAgent), "webtv", k))
  {
    var ua := Lower(userAgent);
    LowerIdempotent(userAgent);
    assert Contains(ua, "msie") ==> IsAt(Lower(userAgent), "msie", IndexOf(ua, "msie"));
    assert Contains(ua, "webtv") ==> IsAt(Lower(userAgent), "webtv", IndexOf(ua, "webtv"));
    Contains(ua, "msie") && !IsOpera(ua) && !Contains(ua, "webtv")
  }

  /** Note that "safari" is looked up in the string as given, not lower-cased. */
  predicate IsGecko(userAgent: string)
    ensures IsGecko(userAgent) <==>
      (exists k :: IsAt(Lower(userAgent), "gecko", k)) && forall k :: !IsAt(userAgent, "safari", k)
  {
    var ua := Lower(userAgent);
    assert Contains(ua, "gecko") ==> IsAt(Lower(userAgent), "gecko", IndexOf(ua, "gecko"));
    assert Contains(userAgent, "safari") ==> IsAt(userAgent, "safari", IndexOf(userAgent, "safari"));
    Contains(ua, "gecko") && !Contains(userAgent, "safari")
  }

  predicate IsFirefox(userAgent: string)
    ensures IsFirefox(userAgent) <==>
      (exists k :: IsAt(Lower(userAgent), "firefox/", k)) || (exists k :: IsAt(Lower(userAgent), "firebird/", k))
  {
    var ua := Lower(userAgent);
    assert Contains(ua, "firefox/") ==> IsAt(Lower(userAgent), "firefox/", IndexOf(ua, "firefox/"));
    assert Contains(ua, "firebird/") ==> IsAt(Lower(userAgent), "firebird/", IndexOf(ua, "firebird/"));
    Contains(ua, "firefox/") || Contains(ua, "firebird/")
  }

  /** "gecko/" is looked up in the string as given; when it is absent the
      index -1 still takes part in the length comparison. */
  predicate IsMozilla(userAgent: string)
    ensures IsMozilla(userAgent) ==>
      IsGecko(userAgent) && 13 <= |userAgent|
      && ((exists k :: IsAt(userAgent, "gecko/", k)) ==> IsAt(userAgent, "gecko/", |userAgent| - 14))
  {
    IsGecko(userAgent) && IndexOf(userAgent, "gecko/") + 14 == |userAgent|
  }

  predicate IsSafari(userAgent: string)
    ensures IsSafari(userAgent) <==> exists k :: IsAt(Lower(userAgent), "safari", k)
  {
    var ua := Lower(userAgent);
    assert Contains(ua, "safari") ==> IsAt(Lower(userAgent), "safari", IndexOf(ua, "safari"));
    Contains(ua, "safari")
  }

  predicate IsAppleWebKit(userAgent: string)
    ensures IsAppleWebKit(userAgent) <==> exists k :: IsAt(Lower(userAgent), "applewebkit", k)
  {
    var ua := Lower(userAgent);
    assert Contains(ua, "applewebkit") ==> IsAt(Lower(userAgent), "applewebkit", IndexOf(ua, "applewebkit"));
    Contains(ua, "applewebkit")
  }

  predicate IsKonqueror(userAgent: string)
    ensures IsKonqueror(userAgent) <==> exists k :: IsAt(Lower(userAgent), "konqueror", k)
  {
    var ua := Lower(userAgent);
    assert Contains(ua, "konqueror") ==> IsAt(Lower(userAgent), "konqueror", IndexOf(ua, "konqueror"));
    Contains(ua, "konqueror")
  }

  predicate IsNetscape(userAgent: string)
    ensures var ua := Lower(userAgent);
      var gecko := (exists k :: IsAt(ua, "gecko", k)) && forall k :: !IsAt(ua, "safari", k);
      IsNetscape(userAgent) <==>
        if gecko then exists k :: IsAt(ua, "netscape", k)
        else
          (exists k :: IsAt(ua, "mozilla", k))
          && (forall k :: !IsAt(ua, "opera", k))
          && (forall k :: !IsAt(ua, "safari", k))
          && (forall k :: !IsAt(ua, "spoofer", k))
          && (forall k :: !IsAt(ua, "compatible", k))
          && (forall k :: !IsAt(ua, "webtv", k))
          && (forall k :: !IsAt(ua, "hotjava", k))
  {
    var ua := Lower(userAgent);
    LowerIdempotent(userAgent);
    assert Contains(ua, "netscape") ==> IsAt(Lower(userAgent), "netscape", IndexOf(ua, "netscape"));
    assert Contains(ua, "mozilla") ==> IsAt(Lower(userAgent), "mozilla", IndexOf(ua, "mozilla"));
    assert Contains(ua, "spoofer") ==> IsAt(Lower(userAgent), "spoofer", IndexOf(ua, "spoofer"));
    assert Contains(ua, "compatible") ==> IsAt(Lower(userAgent), "compatible", IndexOf(ua, "compatible"));
    assert Contains(ua, "webtv") ==> IsAt(Lower(userAgent), "webtv", IndexOf(ua, "webtv"));
    assert Contains(ua, "hotjava") ==> IsAt(Lower(userAgent), "hotjava", IndexOf(ua, "hotjava"));
    if IsGecko(ua) then Contains(ua, "netscape")
    else
      Contains(ua, "mozilla")
      && !(IsOpera(ua) || IsSafari(ua))
      && !Contains(ua, "spoofer")
      && !Contains(ua, "compatible")
      && !Contains(ua, "webtv")
      && !Contains(ua, "hotjava")
  }

  predicate IsIcab(userAgent: string)
    ensures IsIcab(userAgent) <==> exists k :: IsAt(Lower(userAgent), "icab", k)
  {
    var ua := Lower(userAgent);
    assert Contains(ua, "icab") ==> IsAt(Lower(userAgent), "icab", IndexOf(ua, "icab"));
    Contains(ua, "icab")
  }

  predicate IsOmniWeb(userAgent: string)
    ensures IsOmniWeb(userAgent) <==> exists k :: IsAt(Lower(userAgent), "omniweb", k)
  {
    var ua := Lower(userAgent);
    assert Contains(ua, "omniweb") ==> IsAt(Lower(userAgent), "omniweb", IndexOf(ua, "omniweb"));
    Contains(ua, "omniweb")
  }

  predicate IsIECompatible(userAgent: string)
    ensures IsIECompatible(userAgent) <==>
      (exists k :: IsAt(Lower(userAgent), "msie", k))
      && ((exists k :: IsAt(Lower(userAgent), "opera", k)) || (exists k :: IsAt(Lower(userAgent), "webtv", k)))
  {
    var ua := Lower(userAgent);
    assert Contains(ua, "msie") ==> IsAt(Lower(userAgent), "msie", IndexOf(ua, "msie"));
    Contains(ua, "msie") && !IsIE(userAgent)
  }

  predicate IsNSCompatible(userAgent: string)
    ensures IsNSCompatible(userAgent) <==>
      (exists k :: IsAt(Lower(userAgent), "mozilla", k)) && !IsNetscape(userAgent) && !IsMozilla(userAgent)
  {
    var ua := Lower(userAgent);
    assert Contains(ua, "mozilla") ==> IsAt(Lower(userAgent), "mozilla", IndexOf(ua, "mozilla"));
    Contains(ua, "mozilla") && !(IsNetscape(userAgent) || IsMozilla(userAgent))
  }

  // ---------------------------------------------------------------------
  // Relations among the predicates

  lemma MozillaIsGecko(userAgent: string)
    ensures IsMozilla(userAgent) ==> IsGecko(userAgent)
  {
  }

  /** No agent is both Internet Explorer and Opera. */
  lemma IEExcludesOpera(userAgent: string)
    ensures !(IsIE(userAgent) && IsOpera(userAgent))
  {
    LowerIdempotent(userAgent);
  }

  /** An IE-compatible agent claims "msie" and is Opera or WebTV. */
  lemma IECompatibleMeaning(userAgent: string)
    ensures IsIECompatible(userAgent) <==>
      Contains(Lower(userAgent), "msie")
      && (IsOpera(userAgent) || Contains(Lower(userAgent), "webtv"))
  {
    LowerIdempotent(userAgent);
  }

  lemma NSCompatibleExcludes(userAgent: string)
    ensures IsNSCompatible(userAgent) ==> !IsNetscape(userAgent) && !IsMozilla(userAgent)
  {
  }

  /** isMozilla exactly: Gecko, and either the first "gecko/" has exactly
      eight characters after it, or "gecko/" is absent and the agent is 13
      characters long. */
  lemma MozillaMeaning(userAgent: string)
    ensures IsMozilla(userAgent) <==>
      IsGecko(userAgent) &&
      if Contains(userAgent, "gecko/")
      then IsAt(userAgent, "gecko/", |userAgent| - 14)
           && forall k :: 0 <= k < |userAgent| - 14 ==> !IsAt(userAgent, "gecko/", k)
      else |userAgent| == 13
  {
    var i := IndexOf(userAgent, "gecko/");
    if Contains(userAgent, "gecko/") && IsAt(userAgent, "gecko/", |userAgent| - 14)
       && (forall k :: 0 <= k < |userAgent| - 14 ==> !IsAt(userAgent, "gecko/", k)) {
      assert !(i < |userAgent| - 14);
      assert !(i > |userAgent| - 14);
    }
  }

  /** A 13-character Gecko agent without "gecko/" counts as Mozilla. */
  lemma MozillaWithoutGeckoSlash(userAgent: string)
    requires IsGecko(userAgent) && !Contains(userAgent, "gecko/") && |userAgent| == 13
    ensures IsMozilla(userAgent)
  {
  }

  // ---------------------------------------------------------------------
  // toVersion

  predicate IsVersionChar(c: char)
  {
    c == '.' || '0' <= c <= '9'
  }

  /** The longest prefix of s made only of digits and dots. */
  function LeadingVersion(s: string): (v: string)
    ensures v <= s
    ensures forall i :: 0 <= i < |v| ==> IsVersionChar(v[i])
    ensures |v| < |s| ==> !IsVersionChar(s[|v|])
  {
    if s == [] || !IsVersionChar(s[0]) then []
    else [s[0]] + LeadingVersion(s[1..])
  }

  /** Only one prefix is made of version characters and stops at the first
      character that is not one. */
  lemma VersionPrefixUnique(s: string, v: string, w: string)
    requires v <= s && w <= s
    requires forall i :: 0 <= i < |v| ==> IsVersionChar(v[i])
    requires forall i :: 0 <= i < |w| ==> IsVersionChar(w[i])
    requires |v| < |s| ==> !IsVersionChar(s[|v|])
    requires |w| < |s| ==> !IsVersionChar(s[|w|])
    ensures v == w
  {
  }

  lemma LeadingVersionIdempotent(s: string)
    ensures LeadingVersion(LeadingVersion(s)) == LeadingVersion(s)
  {
    var v := LeadingVersion(s);
    VersionPrefixUnique(v, LeadingVersion(v), v);
  }

  /** Browser.toVersion: scan until the first character that is neither a
      digit nor a dot and keep what came before it. */
  method ToVersion(versionPlusCruft: string) returns (v: string)
    ensures v <= versionPlusCruft
    ensures forall i :: 0 <= i < |v| ==> IsVersionChar(v[i])
    ensures |v| < |versionPlusCruft| ==> !IsVersionChar(versionPlusCruft[|v|])
    ensures v == LeadingVersion(versionPlusCruft)
  {
    var index := 0;
    while index < |versionPlusCruft|
      invariant 0 <= index <= |versionPlusCruft|
      invariant forall k :: 0 <= k < index ==> IsVersionChar(versionPlusCruft[k])
    {
      var c := versionPlusCruft[index];
      if c != '.' && !('0' <= c <= '9') {
        v := versionPlusCruft[..index];
        VersionPrefixUnique(versionPlusCruft, v, LeadingVersion(versionPlusCruft));
        return;
      }
      index := index + 1;
    }
    v := versionPlusCruft;
    VersionPrefixUnique(versionPlusCruft, v, LeadingVersion(versionPlusCruft));
  }

  // ---------------------------------------------------------------------
  // getVersion

  /** The branch of getVersion's if/else-if chain that applies. */
  datatype VersionRule =
    | GeckoRule | MozillaRule | IERule | KonquerorRule | SafariRule
    | OmniWebRule | OperaRule | IcabRule | NoRule

  function RuleOf(ua: string): VersionRule
  {
    if IsGecko(ua) && !IsMozilla(ua) then GeckoRule
    else if IsMozilla(ua) then MozillaRule
    else if IsIE(ua) then IERule
    else if IsKonqueror(ua) then KonquerorRule
    else if IsSafari(ua) then SafariRule
    else if IsOmniWeb(ua) then OmniWebRule
    else if IsOpera(ua) then OperaRule
    else if IsIcab(ua) then IcabRule
    else NoRule
  }

  /** Where the version text starts in the agent, for each rule. */
  function StartOffset(rule: VersionRule, ua: string): int
    requires rule != NoRule
  {
    match rule
    case GeckoRule => IndexOfFrom(ua, "/", IndexOf(ua, "gecko/") + 6) + 1
    case MozillaRule => IndexOf(ua, "rv:") + 3
    case IERule => IndexOf(ua, "msie ") + 5
    case KonquerorRule => IndexOf(ua, "konqueror/") + 10
    case SafariRule => LastIndexOf(ua, "safari/") + 7
    case OmniWebRule => LastIndexOf(ua, "omniweb/") + 8
    case OperaRule => IndexOf(ua, "opera") + 6
    case IcabRule => IndexOf(ua, "icab") + 5
  }

  /** Browser.getVersion: the version text after the family's marker, cut at
      the first character that is neither a digit nor a dot. */
  function GetVersion(userAgent: string): (r: Result<string>)
    ensures r.Ok? ==> forall i :: 0 <= i < |r.value| ==> IsVersionChar(r.value[i])
    ensures r.Thrown? ==> r.ex == StringIndexOutOfBounds
    ensures RuleOf(Lower(userAgent)) == NoRule ==> r == Ok("")
  {
    var ua := Lower(userAgent);
    var rule := RuleOf(ua);
    if rule == NoRule then Ok(LeadingVersion(""))
    else
      match Substring(ua, StartOffset(rule, ua))
      case Thrown(e) => Thrown(e)
      case Ok(version) => Ok(LeadingVersion(version))
  }

  /** A version holds only digits and dots, and is empty when no rule applies. */
  lemma GetVersionIsVersionText(userAgent: string)
    ensures GetVersion(userAgent).Ok? ==>
      forall i :: 0 <= i < |GetVersion(userAgent).value| ==> IsVersionChar(GetVersion(userAgent).value[i])
    ensures RuleOf(Lower(userAgent)) == NoRule ==> GetVersion(userAgent) == Ok("")
  {
  }

  /** getVersion throws exactly when the Opera (or iCab) rule is the one
      reached and the first occurrence of its marker ends the lower-cased
      agent, so that the start offset lies one past the end. */
  lemma GetVersionThrowsExactly(userAgent: string)
    ensures var ua := Lower(userAgent);
      GetVersion(userAgent).Thrown? <==>
        (RuleOf(ua) == OperaRule && IndexOf(ua, "opera") + 5 == |ua|)
        || (RuleOf(ua) == IcabRule && IndexOf(ua, "icab") + 4 == |ua|)
    ensures GetVersion(userAgent).Thrown? ==> GetVersion(userAgent).ex == StringIndexOutOfBounds
  {
    var ua := Lower(userAgent);
    var rule := RuleOf(ua);
    if rule != NoRule {
      RuleHasMarker(ua);
      LowerIdempotent(userAgent);
      StartOffsetBounds(ua, rule);
    }
  }

  /** The word whose presence selects each rule. */
  function Marker(rule: VersionRule): string
  {
    match rule
    case GeckoRule => "gecko"
    case MozillaRule => "gecko"
    case IERule => "msie"
    case KonquerorRule => "konqueror"
    case SafariRule => "safari"
    case OmniWebRule => "omniweb"
    case OperaRule => "opera"
    case IcabRule => "icab"
    case NoRule => ""
  }

  /** A rule applies only to an agent that contains its marker. */
  lemma RuleHasMarker(ua: string)
    requires RuleOf(ua) != NoRule
    ensures Contains(Lower(ua), Marker(RuleOf(ua)))
  {
    var l := Lower(ua);
    if IsGecko(ua) {
      assert Contains(l, "gecko");
    } else if IsIE(ua) {
      assert Contains(l, "msie");
    } else if IsKonqueror(ua) {
      assert Contains(l, "konqueror");
    } else if IsSafari(ua) {
      assert Contains(l, "safari");
    } else if IsOmniWeb(ua) {
      assert Contains(l, "omniweb");
    } else if IsOpera(ua) {
      assert Contains(l, "opera");
    } else {
      assert Contains(l, "icab");
    }
  }

  /** The start offset of a rule is out of bounds only for the Opera or iCab
      rule when the first occurrence of its marker ends the agent. */
  lemma StartOffsetBounds(ua: string, rule: VersionRule)
    requires rule != NoRule
    requires Contains(ua, Marker(rule))
    ensures 0 <= StartOffset(rule, ua) <= |ua| <==>
      !((rule == OperaRule && IndexOf(ua, "opera") + 5 == |ua|)
        || (rule == IcabRule && IndexOf(ua, "icab") + 4 == |ua|))
  {
    ContainsLength(ua, Marker(rule));
    if rule == GeckoRule {
      var slash := IndexOfFrom(ua, "/", IndexOf(ua, "gecko/") + 6);
      assert slash == -1 || slash < |ua|;
    }
  }

  // ---------------------------------------------------------------------
  // getBrowser

  /** The family label: the first flag that holds, in the source's order. */
  function BrowserName(ua: string): (name: string)
    ensures name in NameLabels || name == ""
    ensures name == "Gecko" <==> IsGecko(ua)
  {
    if IsGecko(ua) then "Gecko"
    else if IsAppleWebKit(ua) then "Apple WebKit"
    else if IsKonqueror(ua) then "Konqueror"
    else if IsSafari(ua) then "Safari"
    else if IsOpera(ua) then "Opera"
    else if IsIE(ua) then "IE"
    else if IsMozilla(ua) then "Mozilla"
    else if IsFirefox(ua) then "Firefox"
    else if IsNetscape(ua) then "Netscape"
    else ""
  }

  /** The platform label: the first platform whose marker occurs. */
  function Platform(ua: string): (platform: string)
    ensures platform in PlatformLabels || platform == "Unknown"
    ensures platform == "Windows" <==> exists k :: IsAt(ua, "win", k)
  {
    assert Contains(ua, "win") ==> IsAt(ua, "win", IndexOf(ua, "win"));
    if Contains(ua, "win") then "Windows"
    else if Contains(ua, "mac") then "Mac"
    else if Contains(ua, "unix") || Contains(ua, "sunos") || Contains(ua, "bsd") || Contains(ua, "x11") then "Unix"
    else if Contains(ua, "linux") then "Linux"
    else "Unknown"
  }

  /** Browser.getBrowser: "<name> <version> on <platform>" for the lower-cased
      agent; it throws exactly when getVersion does. */
  function GetBrowser(userAgent: string): (r: Result<string>)
    ensures r.Ok? <==> GetVersion(userAgent).Ok?
    ensures r.Thrown? ==> r == GetVersion(userAgent)
    ensures r.Ok? ==>
      r.value == BrowserName(Lower(userAgent)) + " " + GetVersion(userAgent).value
                 + " on " + Platform(Lower(userAgent))
  {
    var ua := Lower(userAgent);
    LowerIdempotent(userAgent);
    match GetVersion(ua)
    case Thrown(e) => Thrown(e)
    case Ok(version) => Ok(BrowserName(ua) + " " + version + " on " + Platform(ua))
  }

  // ---------------------------------------------------------------------
  // First-match tables

  /** The label of the first flag that holds, or the default. */
  function FirstLabel(flags: seq<bool>, labels: seq<string>, default: string): (r: string)
    requires |flags| == |labels|
    ensures forall i :: 0 <= i < |flags| && flags[i] && (forall j :: 0 <= j < i ==> !flags[j]) ==> r == labels[i]
    ensures (forall i :: 0 <= i < |flags| ==> !flags[i]) ==> r == default
  {
    if |flags| == 0 then default
    else if flags[0] then labels[0]
    else
      var r := FirstLabel(flags[1..], labels[1..], default);
      assert forall i :: 1 <= i < |flags| ==> flags[1..][i - 1] == flags[i] && labels[1..][i - 1] == labels[i];
      r
  }

  const NameLabels: seq<string> :=
    ["Gecko", "Apple WebKit", "Konqueror", "Safari", "Opera", "IE", "Mozilla", "Firefox", "Netscape"]

  function NameFlags(ua: string): (f: seq<bool>)
    ensures |f| == |NameLabels|
  {
    [IsGecko(ua), IsAppleWebKit(ua), IsKonqueror(ua), IsSafari(ua), IsOpera(ua),
     IsIE(ua), IsMozilla(ua), IsFirefox(ua), IsNetscape(ua)]
  }

  const PlatformLabels: seq<string> := ["Windows", "Mac", "Unix", "Linux"]

  function PlatformFlags(ua: string): (f: seq<bool>)
    ensures |f| == |PlatformLabels|
  {
    [Contains(ua, "win"), Contains(ua, "mac"),
     Contains(ua, "unix") || Contains(ua, "sunos") || Contains(ua, "bsd") || Contains(ua, "x11"),
     Contains(ua, "linux")]
  }

  lemma FirstLabelAt(flags: seq<bool>, labels: seq<string>, default: string, i: nat)
    requires |flags| == |labels|
    requires i <= |flags|
    requires forall j :: 0 <= j < i ==> !flags[j]
    requires i < |flags| ==> flags[i]
    ensures FirstLabel(flags, labels, default) == if i < |flags| then labels[i] else default
  {
  }

  lemma NameTable(b: seq<bool>)
    requires |b| == |NameLabels|
    ensures FirstLabel(b, NameLabels, "") ==
      if b[0] then "Gecko" else if b[1] then "Apple WebKit" else if b[2] then "Konqueror"
      else if b[3] then "Safari" else if b[4] then "Opera" else if b[5] then "IE"
      else if b[6] then "Mozilla" else if b[7] then "Firefox" else if b[8] then "Netscape" else ""
  {
    var i := FirstTrue(b);
    FirstLabelAt(b, NameLabels, "", i);
    if i < 5 {
      assert i == 0 || i == 1 || i == 2 || i == 3 || i == 4;
    } else {
      assert i == 5 || i == 6 || i == 7 || i == 8 || i == 9;
    }
  }

  /** The name is the label of the first true flag of the priority table. */
  lemma BrowserNameIsFirstFlag(ua: string)
    ensures BrowserName(ua) == FirstLabel(NameFlags(ua), NameLabels, "")
  {
    NameTable(NameFlags(ua));
  }

  /** The index of the first true flag, or |flags| when none holds. */
  lemma FirstTrue(flags: seq<bool>) returns (i: nat)
    ensures i <= |flags|
    ensures forall j :: 0 <= j < i ==> !flags[j]
    ensures i < |flags| ==> flags[i]
  {
    i := 0;
    while i < |flags| && !flags[i]
      invariant i <= |flags|
      invariant forall j :: 0 <= j < i ==> !flags[j]
    {
      i := i + 1;
    }
  }

  lemma PlatformTable(b: seq<bool>)
    requires |b| == |PlatformLabels|
    ensures FirstLabel(b, PlatformLabels, "Unknown") ==
      if b[0] then "Windows" else if b[1] then "Mac" else if b[2] then "Unix"
      else if b[3] then "Linux" else "Unknown"
  {
    var i := FirstTrue(b);
    FirstLabelAt(b, PlatformLabels, "Unknown", i);
  }

  /** The platform is the label of the first platform whose marker occurs. */
  lemma PlatformIsFirstFlag(ua: string)
    ensures Platform(ua) == FirstLabel(PlatformFlags(ua), PlatformLabels, "Unknown")
  {
    PlatformTable(PlatformFlags(ua));
  }

  /** Mozilla implies Gecko, and Gecko comes first: "Mozilla" is never the name. */
  lemma MozillaLabelUnreachable(ua: string)
    ensures BrowserName(ua) != "Mozilla"
  {
  }

  /** An agent naming both AppleWebKit and Safari is labelled "Apple WebKit". */
  lemma AppleWebKitBeforeSafari(userAgent: string)
    requires Contains(Lower(userAgent), "applewebkit") && Contains(Lower(userAgent), "safari")
    ensures BrowserName(Lower(userAgent)) == "Apple WebKit"
  {
    LowerIdempotent(userAgent);
  }

  lemma BrowserNameIsLabel(ua: string)
    ensures BrowserName(ua) in NameLabels || BrowserName(ua) == ""
  {
  }

  /** No family label followed by a space starts with "applewebkit" once
      lower-cased. */
  lemma NoLabelStartsAppleWebKit(name: string, rest: string)
    requires name in NameLabels || name == ""
    requires |rest| > 0 && rest[0] == ' '
    ensures !StartsWith(Lower(name + rest), "applewebkit")
  {
    LabelInitial(name);
    var display := name + rest;
    var i := if name == "Apple WebKit" then 5 else 0;
    assert display[i] in "GKSOIMFN ";
    DiffersAt(Lower(display), "applewebkit", i);
  }

  /** Every label but "Apple WebKit" starts with a letter other than A. */
  lemma LabelInitial(name: string)
    requires name in NameLabels || name == ""
    ensures name == "Apple WebKit" || name == "" || (|name| > 0 && name[0] in "GKSOIMFN")
  {
  }

  /** A string that differs from a prefix at some position does not start with it. */
  lemma DiffersAt(s: string, prefix: string, i: nat)
    requires i < |s| && i < |prefix| && s[i] != prefix[i]
    ensures !StartsWith(s, prefix)
  {
    if |prefix| <= |s| {
      assert s[..|prefix|][i] != prefix[i];
    }
  }

  lemma NoDisplayStartsAppleWebKit(name: string, version: string, platform: string)
    requires name in NameLabels || name == ""
    ensures !StartsWith(Lower(name + " " + version + " on " + platform), "applewebkit")
  {
    var rest := " " + version + " on " + platform;
    assert name + " " + version + " on " + platform == name + rest;
    NoLabelStartsAppleWebKit(name, rest);
  }

  /** The label "Apple WebKit" has a space in it, so the token "applewebkit"
      is never a prefix of the lower-cased display string. */
  lemma AppleWebKitNeverPrefixes(userAgent: string)
    requires GetBrowser(userAgent).Ok?
    ensures !StartsWith(Lower(GetBrowser(userAgent).value), "applewebkit")
  {
    BrowserNameIsLabel(Lower(userAgent));
    NoDisplayStartsAppleWebKit(BrowserName(Lower(userAgent)), GetVersion(userAgent).value, Platform(Lower(userAgent)));
  }
}
