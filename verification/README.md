# Browser user-agent classifier, modelled in Dafny

This project models `org.discotools.gwt.client.Browser`, a utility that
classifies an HTTP user-agent string. The class is a static bank of
predicates (`isIE`, `isGecko`, `isFirefox`, `isMozilla`, `isOpera`,
`isSafari`, `isAppleWebKit`, `isKonqueror`, `isNetscape`, `isIcab`,
`isOmniWeb`, `isIECompatible`, `isNSCompatible`) plus:

- version extraction (`getVersion`, `toVersion`);
- a display string `"<name> <version> on <platform>"` (`getBrowser`);
- a small condition language evaluated against an agent (`isMatch`):
  `[not] family [comparator version]` or `!family`.

The model has three modules:

- `JavaString` (`java_string.dfy`) holds the `java.lang.String` behaviour
  the class relies on:
  - `indexOf` and `lastIndexOf`, with -1 for a missing substring;
  - `substring`, which throws `StringIndexOutOfBoundsException` for a bad start;
  - `split(" ")`, which returns a space-free string whole and otherwise
    drops trailing empty tokens;
  - `startsWith`, `toLowerCase`, and the sign of `compareTo`.

  Exceptions are values: every operation that can throw returns
  `Result<T> = Ok(value) | Thrown(ex)`.
- `Browser` (`browser.dfy`) holds:
  - the predicates, written with the same calls, including which ones
    lower-case first;
  - `toVersion`, as a loop over the string;
  - `getVersion`, as its if/else-if chain of version rules;
  - `getBrowser`, as the two first-match label tables.
- `BrowserMatch` (`browser_match.dfy`) holds `isMatch`, in two forms:
  - the method `IsMatch`, which follows the source over a mutable token
    array. `"!"` is stripped in place, and `"not"` swaps in a fresh
    three-element copy;
  - the function `Match`, which states the same evaluation in three
    stages: tokens, negation, decision.

  The method is proved equal to the function. Lemmas then say what each
  form of condition evaluates to, including the exceptions.

The code has some behaviour that a reader of the condition syntax might
not expect. The model keeps it, and lemmas state it:

- The empty condition splits into one empty token, which prefixes every
  display string. It therefore throws `ArrayIndexOutOfBoundsException`, or
  `StringIndexOutOfBoundsException` when `getVersion` already throws for
  the agent.
- `"not x"` with fewer than three tokens after `not` throws.
- A lone family token that matches, such as `"ie"` on an IE agent,
  throws rather than answering true.
- `"applewebkit"` never matches, because the label is `"Apple WebKit"`.
- `isMozilla` looks for `"gecko/"` case-sensitively, and lets the missing
  index -1 take part in its length test.
- The Opera and iCab version rules throw `StringIndexOutOfBoundsException`
  when that rule is the one reached and the FIRST occurrence of its marker
  ends the lower-cased agent. "Opera opera" does not throw: the first
  "opera" is at offset 0.

## Model

| member | source | states |
|---|---|---|
| `JavaString.Lower` | src/main/java/org/discotools/gwt/client/Browser.java:61 | toLowerCase keeps the length and lower-cases each ASCII letter position by position |
| `JavaString.LowerIdempotent` | src/main/java/org/discotools/gwt/client/Browser.java:131-132 | lower-casing an already lower-cased agent changes nothing (why the predicates agree when called on a lowered agent) |
| `JavaString.IndexOfFrom` | src/main/java/org/discotools/gwt/client/Browser.java:252-253 | indexOf(t, from) returns the first occurrence at or after the clamped start, or -1 exactly when none exists |
| `JavaString.IndexOf` | src/main/java/org/discotools/gwt/client/Browser.java:62-63 | indexOf(t) is the first occurrence, or -1 when t does not occur |
| `JavaString.LastIndexOf` | src/main/java/org/discotools/gwt/client/Browser.java:261 | lastIndexOf(t) is an occurrence with none after it, or -1 |
| `JavaString.ContainsLength` | src/main/java/org/discotools/gwt/client/Browser.java:99 | a found marker is no longer than the agent |
| `JavaString.Substring` | src/main/java/org/discotools/gwt/client/Browser.java:252-268 | substring(begin) succeeds exactly when 0 <= begin <= length, yields the suffix, and otherwise throws StringIndexOutOfBounds |
| `JavaString.JoinPieces` | src/main/java/org/discotools/gwt/client/Browser.java:183 | the pieces between spaces, joined with single spaces, give back the string |
| `JavaString.SplitIsPiecesPrefix` | src/main/java/org/discotools/gwt/client/Browser.java:183 | split(" ") on a string with a space keeps a prefix of the pieces and drops only trailing empty ones |
| `JavaString.Split` | src/main/java/org/discotools/gwt/client/Browser.java:183 | split(" ") yields tokens without spaces |
| `JavaString.SplitWithoutSpace` | src/main/java/org/discotools/gwt/client/Browser.java:183 | split(" ") returns a space-free string whole, even the empty string, and that equals its list of pieces |
| `JavaString.SplitOfSpaces` | src/main/java/org/discotools/gwt/client/Browser.java:183-187 | a string made only of spaces splits into no tokens |
| `JavaString.Compare` | src/main/java/org/discotools/gwt/client/Browser.java:215-220 | the sign of compareTo is -1, 0 or 1, and 0 exactly for equal strings |
| `JavaString.CompareAntisymmetric` | src/main/java/org/discotools/gwt/client/Browser.java:219-220 | swapping the operands of compareTo negates the sign |
| `JavaString.CompareFirstDifference` | src/main/java/org/discotools/gwt/client/Browser.java:219-220 | the first differing character decides the comparison |
| `JavaString.ComparePrefix` | src/main/java/org/discotools/gwt/client/Browser.java:219-220 | a proper prefix compares smaller |
| `JavaString.VersionsCompareAsText` | src/main/java/org/discotools/gwt/client/Browser.java:219-220 | versions compare as text: "9" is after "10" |
| `Browser.IsIE` | src/main/java/org/discotools/gwt/client/Browser.java:60-64 | isIE holds exactly when the lowered agent contains "msie" and contains neither "opera" nor "webtv" |
| `Browser.IsGecko` | src/main/java/org/discotools/gwt/client/Browser.java:70-73 | isGecko holds exactly when the lowered agent contains "gecko" and the agent as given contains no "safari" |
| `Browser.IsFirefox` | src/main/java/org/discotools/gwt/client/Browser.java:79-83 | isFirefox holds exactly when "firefox/" or "firebird/" occurs in the lowered agent |
| `Browser.IsOpera` | src/main/java/org/discotools/gwt/client/Browser.java:98-100 | isOpera holds exactly when "opera" occurs in the lowered agent |
| `Browser.IsSafari` | src/main/java/org/discotools/gwt/client/Browser.java:106-108 | isSafari holds exactly when "safari" occurs in the lowered agent |
| `Browser.IsAppleWebKit` | src/main/java/org/discotools/gwt/client/Browser.java:114-116 | isAppleWebKit holds exactly when "applewebkit" occurs in the lowered agent |
| `Browser.IsKonqueror` | src/main/java/org/discotools/gwt/client/Browser.java:122-124 | isKonqueror holds exactly when "konqueror" occurs in the lowered agent |
| `Browser.IsIcab` | src/main/java/org/discotools/gwt/client/Browser.java:145-147 | isIcab holds exactly when "icab" occurs in the lowered agent |
| `Browser.IsOmniWeb` | src/main/java/org/discotools/gwt/client/Browser.java:153-155 | isOmniWeb holds exactly when "omniweb" occurs in the lowered agent |
| `Browser.IsMozilla` | src/main/java/org/discotools/gwt/client/Browser.java:89-92 | a Mozilla agent is Gecko, has at least 13 characters, and if "gecko/" occurs (case-sensitively) it occurs at 14 characters from the end |
| `Browser.IsNetscape` | src/main/java/org/discotools/gwt/client/Browser.java:130-139 | on the lowered agent: when it is Gecko ("gecko" present, "safari" absent), Netscape exactly when "netscape" occurs; otherwise exactly when "mozilla" occurs and none of "opera", "safari", "spoofer", "compatible", "webtv", "hotjava" does |
| `Browser.IsIECompatible` | src/main/java/org/discotools/gwt/client/Browser.java:161-164 | holds exactly when "msie" occurs in the lowered agent together with "opera" or "webtv" |
| `Browser.IsNSCompatible` | src/main/java/org/discotools/gwt/client/Browser.java:170-173 | holds exactly when "mozilla" occurs in the lowered agent and the agent is neither Netscape nor Mozilla |
| `Browser.MozillaIsGecko` | src/main/java/org/discotools/gwt/client/Browser.java:89-92 | every Mozilla agent is a Gecko agent |
| `Browser.MozillaMeaning` | src/main/java/org/discotools/gwt/client/Browser.java:89-92 | isMozilla holds exactly for a Gecko agent whose first "gecko/" has exactly eight characters after it, or that has no "gecko/" and is 13 characters long |
| `Browser.MozillaWithoutGeckoSlash` | src/main/java/org/discotools/gwt/client/Browser.java:91 | a 13-character Gecko agent without "gecko/" counts as Mozilla, because the missing index -1 plus 14 equals its length |
| `Browser.IEExcludesOpera` | src/main/java/org/discotools/gwt/client/Browser.java:60-64 | no agent is both IE and Opera |
| `Browser.IECompatibleMeaning` | src/main/java/org/discotools/gwt/client/Browser.java:161-164 | isIECompatible holds exactly when the agent claims "msie" and is Opera or WebTV |
| `Browser.NSCompatibleExcludes` | src/main/java/org/discotools/gwt/client/Browser.java:170-173 | an NS-compatible agent is neither Netscape nor Mozilla |
| `Browser.LeadingVersion` | src/main/java/org/discotools/gwt/client/Browser.java:372-382 | the version text is a prefix made only of digits and dots, stopped by the first other character |
| `Browser.LeadingVersionIdempotent` | src/main/java/org/discotools/gwt/client/Browser.java:374-382 | toVersion applied to its own result changes nothing |
| `Browser.ToVersion` | src/main/java/org/discotools/gwt/client/Browser.java:374-382 | the scanning loop returns the longest prefix of digits and dots: a prefix, all version characters, followed by a non-version character or the end |
| `Browser.GetVersion` | src/main/java/org/discotools/gwt/client/Browser.java:245-271 | a returned version holds only digits and dots, a thrown exception is always StringIndexOutOfBounds, and the version is empty when no rule applies |
| `Browser.GetVersionIsVersionText` | src/main/java/org/discotools/gwt/client/Browser.java:245-271 | a version returned by getVersion holds only digits and dots, and is empty when no rule applies |
| `Browser.GetVersionThrowsExactly` | src/main/java/org/discotools/gwt/client/Browser.java:250-269 | getVersion throws exactly when the Opera rule is the one reached and the first occurrence of "opera" ends the lower-cased agent (indexOf + 5 == length), or the iCab rule is reached and the first "icab" ends it (indexOf + 4 == length); the exception is then StringIndexOutOfBounds |
| `Browser.RuleHasMarker` | src/main/java/org/discotools/gwt/client/Browser.java:251-268 | each branch of the rule chain applies only to an agent that contains its marker word |
| `Browser.StartOffsetBounds` | src/main/java/org/discotools/gwt/client/Browser.java:252-268 | for an agent that contains the rule's marker, the substring start lies in [0, length] except for the Opera rule when the first "opera" ends the agent (indexOf + 5 == length) and the iCab rule when the first "icab" ends it (indexOf + 4 == length) |
| `Browser.GetBrowser` | src/main/java/org/discotools/gwt/client/Browser.java:291-370 | getBrowser throws exactly when getVersion on the agent throws, and otherwise yields name, version and platform of the lowered agent |
| `Browser.BrowserName` | src/main/java/org/discotools/gwt/client/Browser.java:358-361 | the name is one of the label constants or empty, and it is "Gecko" exactly for a Gecko agent |
| `Browser.Platform` | src/main/java/org/discotools/gwt/client/Browser.java:320-334 | the platform is one of Windows, Mac, Unix, Linux or Unknown, and it is Windows exactly when "win" occurs |
| `Browser.FirstLabel` | src/main/java/org/discotools/gwt/client/Browser.java:358-367 | a first-match table yields the label of the first true flag, or the default when none holds |
| `Browser.BrowserNameIsFirstFlag` | src/main/java/org/discotools/gwt/client/Browser.java:296-306 | the browser name is the label of the first true flag in the order Gecko, Apple WebKit, Konqueror, Safari, Opera, IE, Mozilla, Firefox, Netscape |
| `Browser.PlatformIsFirstFlag` | src/main/java/org/discotools/gwt/client/Browser.java:320-334 | the platform is the first of Windows, Mac, Unix, Linux whose markers occur, else Unknown |
| `Browser.MozillaLabelUnreachable` | src/main/java/org/discotools/gwt/client/Browser.java:358-361 | the name is never "Mozilla", because a Mozilla agent is Gecko and Gecko comes first |
| `Browser.AppleWebKitBeforeSafari` | src/main/java/org/discotools/gwt/client/Browser.java:358-359 | an agent naming both AppleWebKit and Safari is labelled "Apple WebKit" |
| `Browser.BrowserNameIsLabel` | src/main/java/org/discotools/gwt/client/Browser.java:44-52 | the name is one of the label constants or empty |
| `Browser.AppleWebKitNeverPrefixes` | src/main/java/org/discotools/gwt/client/Browser.java:363-367 | no lower-cased display string starts with "applewebkit" |
| `BrowserMatch.Negation` | src/main/java/org/discotools/gwt/client/Browser.java:189-201 | negation throws ArrayIndexOutOfBounds exactly for "not" with fewer than three tokens after it; "not" keeps the next three tokens negated; otherwise it negates exactly when the first token starts with "!" and keeps the token count |
| `BrowserMatch.Decide` | src/main/java/org/discotools/gwt/client/Browser.java:203-238 | after negation, an unmatched family without negation gives false; the only exceptions are IllegalArgument for two tokens whose second lacks "!", and ArrayIndexOutOfBounds for a single matching token |
| `BrowserMatch.Match` | src/main/java/org/discotools/gwt/client/Browser.java:179-239 | a condition without tokens is false; StringIndexOutOfBounds escapes only when getVersion throws for the agent, and whenever getVersion throws, every condition with tokens that gets past negation throws StringIndexOutOfBounds |
| `BrowserMatch.IsMatch` | src/main/java/org/discotools/gwt/client/Browser.java:179-239 | the step-by-step evaluation over the token array agrees with the staged evaluation Match for every agent and condition |
| `BrowserMatch.TakeNegation` | src/main/java/org/discotools/gwt/client/Browser.java:189-201 | the in-place "!" strip or the fresh three-element "not" copy yields the tokens Negation describes, or throws where it does; the input array changes only by the "!" strip of its first token |
| `BrowserMatch.CheckCondition` | src/main/java/org/discotools/gwt/client/Browser.java:203-238 | the family check, the "!version" form and the comparator chain evaluate as Resolve describes, exceptions included; the array changes at most by stripping "!" from the second of two tokens |
| `BrowserMatch.NegationOfFamily` | src/main/java/org/discotools/gwt/client/Browser.java:198-201 | without "not", negation only strips a leading "!" from the family token |
| `BrowserMatch.DecideCompares` | src/main/java/org/discotools/gwt/client/Browser.java:218-238 | past the family check, three or more tokens apply the comparator to the version comparison, reversed under negation |
| `BrowserMatch.SpacesOnlyIsFalse` | src/main/java/org/discotools/gwt/client/Browser.java:182-187 | a condition of spaces only is false for every agent |
| `BrowserMatch.EmptyConditionThrows` | src/main/java/org/discotools/gwt/client/Browser.java:182-220 | the empty condition throws: ArrayIndexOutOfBounds, or StringIndexOutOfBounds when getVersion throws first |
| `BrowserMatch.UnmatchedFamilyIsFalse` | src/main/java/org/discotools/gwt/client/Browser.java:204-206 | without negation, a family token that does not prefix the display string gives false |
| `BrowserMatch.UnmatchedBangIsTrue` | src/main/java/org/discotools/gwt/client/Browser.java:198-206 | a lone "!family" that does not match gives true |
| `BrowserMatch.MatchedSingleTokenThrows` | src/main/java/org/discotools/gwt/client/Browser.java:204-220 | a lone family token that matches throws ArrayIndexOutOfBounds instead of answering true |
| `BrowserMatch.ShortNotThrows` | src/main/java/org/discotools/gwt/client/Browser.java:191-195 | "not" with fewer than three following tokens throws ArrayIndexOutOfBounds for every agent |
| `BrowserMatch.NotFormIgnoresFamily` | src/main/java/org/discotools/gwt/client/Browser.java:191-238 | "not family op version" is the comparison with the operands swapped, whatever the family token, ignoring tokens after the fourth |
| `BrowserMatch.TwoTokenForm` | src/main/java/org/discotools/gwt/client/Browser.java:208-216 | with two tokens past the family check, the answer is whether the agent's version differs from "!version", and any other second token throws IllegalArgument |
| `BrowserMatch.ThreeTokenForm` | src/main/java/org/discotools/gwt/client/Browser.java:218-238 | "family op version" applies the comparator to compareTo of the agent's version against the given one, reversed under "!" |
| `BrowserMatch.UnknownComparatorIsFalse` | src/main/java/org/discotools/gwt/client/Browser.java:222-238 | only the five comparators and their symbols can make a comparison true |
| `BrowserMatch.AppleWebKitConditionNeverTrue` | src/main/java/org/discotools/gwt/client/Browser.java:204-206 | a condition on "applewebkit" is false, or throws when getVersion throws; it is never true |

## Left out

- The zero-argument overloads read the agent from the browser environment through a host call (`Window.Navigator.getUserAgent`). They are not modelled; every modelled operation takes the agent as a parameter.
- Commented-out code inside `getBrowser` (Win32, DOM and CSS mode checks, version shortcuts) is not modelled, because it has no effect.
- `toLowerCase` is modelled for ASCII letters only, and `Character.isDigit` for the ASCII digits only; other Unicode case mappings and digits are not modelled.
- `JavaString.Compare` keeps only the sign of `compareTo`. The code only uses the sign, so the magnitude is not modelled.
- Strings are modelled as sequences of Unicode scalar values, while Java's `length`, `indexOf`, `substring` and `compareTo` count and compare UTF-16 code units. For characters outside the Basic Multilingual Plane (U+0000 to U+FFFF) the model's lengths and offsets therefore differ from Java's: `isMozilla`'s length test, the fixed offsets in `getVersion`, and the order `compareTo` gives. For example, Java gives length 15 for `"gecko/1234567"` followed by U+1F600, and the model gives 14.
- `null` arguments, and the `NullPointerException` they would cause, are not modelled.
- `split` is modelled only for the single-space pattern used here, not as a general regular-expression split.
- `BrowserMatch.TakeNegation`: the `null` slots of the fresh `String[3]` in the `"not"` branch are modelled as empty strings. Every path that leaves a slot unset throws before the array is used.
- `BrowserMatch.Negation`: for the `"!"` case the contract states the negation flag and the token count. The exact token list is stated by `BrowserMatch.NegationOfFamily`.
