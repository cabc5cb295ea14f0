/**
 * `LinkController::detectDevice`, `detectBrowser` and `detectOS`: fixed-order
 * chains of case-insensitive substring tests; the first rule that matches wins.
 */
module UserAgent {

  import opened Text

  /** `detectDevice`: mobile keywords first, then tablet keywords, else desktop. */
  function DetectDevice(ua: string): string {
    if ContainsCI(ua, "mobile") || ContainsCI(ua, "android") || ContainsCI(ua, "iphone") || ContainsCI(ua, "ipad") then "mobile"
    else if ContainsCI(ua, "tablet") || ContainsCI(ua, "ipad") then "tablet"
    else "desktop"
  }

  /** `detectBrowser`: Edge, Chrome, Firefox, Safari, Opera/OPR, else Unknown. */
  function DetectBrowser(ua: string): string {
    if ContainsCI(ua, "edge") then "Edge"
    else if ContainsCI(ua, "chrome") then "Chrome"
    else if ContainsCI(ua, "firefox") then "Firefox"
    else if ContainsCI(ua, "safari") then "Safari"
    else if ContainsCI(ua, "opera") || ContainsCI(ua, "opr") then "Opera"
    else "Unknown"
  }

  /** `detectOS`: Windows, Macintosh/Mac OS X, Linux, Android, iOS/iPhone/iPad, else Unknown. */
  function DetectOS(ua: string): string {
    if ContainsCI(ua, "windows") then "Windows"
    else if ContainsCI(ua, "macintosh") || ContainsCI(ua, "mac os x") then "macOS"
    else if ContainsCI(ua, "linux") then "Linux"
    else if ContainsCI(ua, "android") then "Android"
    else if ContainsCI(ua, "ios") || ContainsCI(ua, "iphone") || ContainsCI(ua, "ipad") then "iOS"
    else "Unknown"
  }

  /** A classification rule: any of the (lower-case) keywords selects the name. */
  datatype Rule = Rule(keywords: seq<string>, name: string)

  /** Some keyword of `ws` occurs in `ua`, ignoring case. */
  predicate AnyKeyword(ua: string, ws: seq<string>) {
    ws != [] && (ContainsCI(ua, ws[0]) || AnyKeyword(ua, ws[1..]))
  }

  /** The reference reading of a rule table: the name of the first rule with a keyword in `ua`. */
  function FirstMatch(ua: string, rules: seq<Rule>, default: string): string {
    if rules == [] then default
    else if AnyKeyword(ua, rules[0].keywords) then rules[0].name
    else FirstMatch(ua, rules[1..], default)
  }

  /** `detectDevice`'s rules, in order. */
  const DeviceRules: seq<Rule> := [Rule(["mobile", "android", "iphone", "ipad"], "mobile"), Rule(["tablet", "ipad"], "tablet")]

  /** `detectBrowser`'s rules, in order. */
  const BrowserRules: seq<Rule> :=
    [Rule(["edge"], "Edge"), Rule(["chrome"], "Chrome"), Rule(["firefox"], "Firefox"),
     Rule(["safari"], "Safari"), Rule(["opera", "opr"], "Opera")]

  /** `detectOS`'s rules, in order. */
  const OsRules: seq<Rule> :=
    [Rule(["windows"], "Windows"), Rule(["macintosh", "mac os x"], "macOS"), Rule(["linux"], "Linux"),
     Rule(["android"], "Android"), Rule(["ios", "iphone", "ipad"], "iOS")]

  /** Unfolds `AnyKeyword` over its first keyword. */
  lemma AnyKeywordCons(ua: string, w: string, ws: seq<string>)
    ensures AnyKeyword(ua, [w] + ws) <==> ContainsCI(ua, w) || AnyKeyword(ua, ws)
  {
    assert ([w] + ws)[1..] == ws;
  }

  /** Unfolds `FirstMatch` over its first rule. */
  lemma FirstMatchStep(ua: string, rules: seq<Rule>, default: string)
    requires rules != []
    ensures FirstMatch(ua, rules, default) ==
      if AnyKeyword(ua, rules[0].keywords) then rules[0].name else FirstMatch(ua, rules[1..], default)
  {
  }

  /** `detectDevice` is the first-match reading of its rule table. */
  lemma DeviceIsFirstMatch(ua: string)
    ensures DetectDevice(ua) == FirstMatch(ua, DeviceRules, "desktop")
    ensures DetectDevice(ua) in {"mobile", "tablet", "desktop"}
  {
    var r := DeviceRules;
    FirstMatchStep(ua, r, "desktop");
    FirstMatchStep(ua, r[1..], "desktop");
    assert r[1..][1..] == [];
    assert AnyKeyword(ua, r[0].keywords) <==> ContainsCI(ua, "mobile") || ContainsCI(ua, "android") || ContainsCI(ua, "iphone") || ContainsCI(ua, "ipad") by {
      AnyKeywordCons(ua, "ipad", []);
      assert ["ipad"] == ["ipad"] + [];
      AnyKeywordCons(ua, "iphone", ["ipad"]);
      assert ["iphone", "ipad"] == ["iphone"] + ["ipad"];
      AnyKeywordCons(ua, "android", ["iphone", "ipad"]);
      assert ["android", "iphone", "ipad"] == ["android"] + ["iphone", "ipad"];
      AnyKeywordCons(ua, "mobile", ["android", "iphone", "ipad"]);
      assert ["mobile", "android", "iphone", "ipad"] == ["mobile"] + ["android", "iphone", "ipad"];
    }
    assert AnyKeyword(ua, r[1].keywords) <==> ContainsCI(ua, "tablet") || ContainsCI(ua, "ipad") by {
      AnyKeywordCons(ua, "ipad", []);
      assert ["ipad"] == ["ipad"] + [];
      AnyKeywordCons(ua, "tablet", ["ipad"]);
      assert ["tablet", "ipad"] == ["tablet"] + ["ipad"];
    }
  }

  /** `detectBrowser` is the first-match reading of its rule table. */
  lemma BrowserIsFirstMatch(ua: string)
    ensures DetectBrowser(ua) == FirstMatch(ua, BrowserRules, "Unknown")
    ensures DetectBrowser(ua) in {"Edge", "Chrome", "Firefox", "Safari", "Opera", "Unknown"}
  {
    var r := BrowserRules;
    FirstMatchStep(ua, r, "Unknown");
    FirstMatchStep(ua, r[1..], "Unknown");
    FirstMatchStep(ua, r[2..], "Unknown");
    FirstMatchStep(ua, r[3..], "Unknown");
    FirstMatchStep(ua, r[4..], "Unknown");
    assert r[1..][1..] == r[2..] && r[2..][1..] == r[3..] && r[3..][1..] == r[4..] && r[4..][1..] == [];
    assert AnyKeyword(ua, r[0].keywords) <==> ContainsCI(ua, "edge");
    assert AnyKeyword(ua, r[1].keywords) <==> ContainsCI(ua, "chrome");
    assert AnyKeyword(ua, r[2].keywords) <==> ContainsCI(ua, "firefox");
    assert AnyKeyword(ua, r[3].keywords) <==> ContainsCI(ua, "safari");
    assert AnyKeyword(ua, r[4].keywords) <==> ContainsCI(ua, "opera") || ContainsCI(ua, "opr") by {
      AnyKeywordCons(ua, "opr", []);
      assert ["opr"] == ["opr"] + [];
      AnyKeywordCons(ua, "opera", ["opr"]);
      assert ["opera", "opr"] == ["opera"] + ["opr"];
    }
  }

  /** The keyword tests of `detectOS`'s rules, one per rule. */
  lemma OsKeywords(ua: string)
    ensures AnyKeyword(ua, OsRules[0].keywords) <==> ContainsCI(ua, "windows")
    ensures AnyKeyword(ua, OsRules[1].keywords) <==> ContainsCI(ua, "macintosh") || ContainsCI(ua, "mac os x")
    ensures AnyKeyword(ua, OsRules[2].keywords) <==> ContainsCI(ua, "linux")
    ensures AnyKeyword(ua, OsRules[3].keywords) <==> ContainsCI(ua, "android")
    ensures AnyKeyword(ua, OsRules[4].keywords) <==> ContainsCI(ua, "ios") || ContainsCI(ua, "iphone") || ContainsCI(ua, "ipad")
  {
    assert AnyKeyword(ua, ["macintosh", "mac os x"]) <==> ContainsCI(ua, "macintosh") || ContainsCI(ua, "mac os x") by {
      AnyKeywordCons(ua, "mac os x", []);
      assert ["mac os x"] == ["mac os x"] + [];
      AnyKeywordCons(ua, "macintosh", ["mac os x"]);
      assert ["macintosh", "mac os x"] == ["macintosh"] + ["mac os x"];
    }
    assert AnyKeyword(ua, ["ios", "iphone", "ipad"]) <==> ContainsCI(ua, "ios") || ContainsCI(ua, "iphone") || ContainsCI(ua, "ipad") by {
      AnyKeywordCons(ua, "ipad", []);
      assert ["ipad"] == ["ipad"] + [];
      AnyKeywordCons(ua, "iphone", ["ipad"]);
      assert ["iphone", "ipad"] == ["iphone"] + ["ipad"];
      AnyKeywordCons(ua, "ios", ["iphone", "ipad"]);
      assert ["ios", "iphone", "ipad"] == ["ios"] + ["iphone", "ipad"];
    }
  }

  /** `detectOS` is the first-match reading of its rule table. */
  lemma OsIsFirstMatch(ua: string)
    ensures DetectOS(ua) == FirstMatch(ua, OsRules, "Unknown")
    ensures DetectOS(ua) in {"Windows", "macOS", "Linux", "Android", "iOS", "Unknown"}
  {
    var r := OsRules;
    OsKeywords(ua);
    FirstMatchStep(ua, r, "Unknown");
    FirstMatchStep(ua, r[1..], "Unknown");
    FirstMatchStep(ua, r[2..], "Unknown");
    FirstMatchStep(ua, r[3..], "Unknown");
    FirstMatchStep(ua, r[4..], "Unknown");
    assert r[1..][1..] == r[2..] && r[2..][1..] == r[3..] && r[3..][1..] == r[4..] && r[4..][1..] == [];
  }

  /** "mobile" exactly when a mobile keyword occurs; "tablet" only when "tablet" occurs and no mobile keyword does. */
  lemma DeviceClasses(ua: string)
    ensures DetectDevice(ua) == "mobile" <==>
      ContainsCI(ua, "mobile") || ContainsCI(ua, "android") || ContainsCI(ua, "iphone") || ContainsCI(ua, "ipad")
    ensures DetectDevice(ua) == "tablet" <==>
      ContainsCI(ua, "tablet") &&
      !(ContainsCI(ua, "mobile") || ContainsCI(ua, "android") || ContainsCI(ua, "iphone") || ContainsCI(ua, "ipad"))
  {
  }

  /** An iPad user agent is classed as a mobile device: the tablet rule's `ipad` never decides. */
  lemma IPadIsMobile(ua: string)
    requires ContainsCI(ua, "ipad")
    ensures DetectDevice(ua) == "mobile"
  {
  }

  /** Chrome's user agent also names Safari; the earlier Chrome rule wins. */
  lemma ChromeBeforeSafari(ua: string)
    requires ContainsCI(ua, "chrome") && ContainsCI(ua, "safari") && !ContainsCI(ua, "edge")
    ensures DetectBrowser(ua) == "Chrome"
  {
  }

  /** Android user agents also name Linux; the earlier Linux rule wins. */
  lemma AndroidReportsLinux(ua: string)
    requires ContainsCI(ua, "android") && ContainsCI(ua, "linux")
    requires !ContainsCI(ua, "windows") && !ContainsCI(ua, "macintosh") && !ContainsCI(ua, "mac os x")
    ensures DetectOS(ua) == "Linux"
  {
  }

  /** A user agent that says "like Mac OS X" also says "Mac OS X". */
  lemma LikeMacOSX(ua: string)
    requires ContainsCI(ua, "like mac os x")
    ensures ContainsCI(ua, "mac os x")
  {
    assert "like mac os x" == "like " + "mac os x";
    ContainsPart(LowerString(ua), "like ", "mac os x");
  }

  /** Any "Mac OS X" user agent without "Windows" reports macOS. */
  lemma MacOSXReportsMacOS(ua: string)
    requires ContainsCI(ua, "mac os x") && !ContainsCI(ua, "windows")
    ensures DetectOS(ua) == "macOS"
  {
  }

  /** An iPhone user agent ("… like Mac OS X") is reported as macOS, never iOS: the macOS test precedes the iOS one. */
  lemma IPhoneReportsMacOS(ua: string)
    requires ContainsCI(ua, "iphone") && ContainsCI(ua, "like mac os x") && !ContainsCI(ua, "windows")
    ensures DetectOS(ua) == "macOS"
  {
    LikeMacOSX(ua);
    MacOSXReportsMacOS(ua);
  }

  /** Lower-casing the user agent changes no classification. */
  lemma {:induction false} CaseIsIgnored(ua: string)
    ensures DetectDevice(LowerString(ua)) == DetectDevice(ua)
    ensures DetectBrowser(LowerString(ua)) == DetectBrowser(ua)
    ensures DetectOS(LowerString(ua)) == DetectOS(ua)
  {
    assert LowerString(LowerString(ua)) == LowerString(ua);
  }

  /** The empty user agent gets every default. */
  lemma EmptyUserAgent()
    ensures DetectDevice("") == "desktop" && DetectBrowser("") == "Unknown" && DetectOS("") == "Unknown"
  {
  }
}
