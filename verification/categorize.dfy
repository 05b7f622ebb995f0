/**
 `categorize_skill`: weighted keyword scoring. Every category of the table is scored against
 the lower-cased skill name and description; the first category with the highest score wins,
 unless that score is below the threshold, in which case the skill is filed under "Other".
 The source computes with floats, but every weight and every partial sum is a small integer,
 so integer arithmetic gives exactly the same scores.
 */
module Categorize {
  import opened Wrappers
  import opened Text

  datatype Keywords = Keywords(primary: seq<string>, secondary: seq<string>, exclusions: seq<string>)

  datatype Category = Category(name: string, keywords: Keywords)

  const NameWeight: int := 1
  const DescWeight: int := 3
  const PrimaryPoints: int := 5
  const SecondaryPoints: int := 2
  const ExclusionPenalty: int := 10
  /** A best score below this files the skill under "Other". */
  const Threshold: int := 2
  const OtherCategory: string := "Other"

  /** A keyword hits when it occurs in the name or in a non-empty description. */
  predicate Hits(x: string, nameL: string, descL: string) {
    Contains(nameL, x) || (descL != "" && Contains(descL, x))
  }

  /** The points one keyword earns: a hit in the name, and a hit in a non-empty description. */
  function KeywordPoints(k: string, base: int, nameL: string, descL: string): int {
    (if Contains(nameL, k) then base * NameWeight else 0)
    + (if descL != "" && Contains(descL, k) then base * DescWeight else 0)
  }

  /** The points of a keyword list, summed in list order. */
  function ListPoints(ks: seq<string>, base: int, nameL: string, descL: string): int
    decreases |ks|
  {
    if ks == [] then 0 else KeywordPoints(ks[0], base, nameL, descL) + ListPoints(ks[1..], base, nameL, descL)
  }

  /** The number of exclusions that hit. */
  function ExclusionHits(xs: seq<string>, nameL: string, descL: string): nat
    decreases |xs|
  {
    if xs == [] then 0
    else (if Hits(xs[0], nameL, descL) then 1 else 0) + ExclusionHits(xs[1..], nameL, descL)
  }

  /** The score of one category. */
  function Score(c: Category, nameL: string, descL: string): int {
    ListPoints(c.keywords.primary, PrimaryPoints, nameL, descL)
    + ListPoints(c.keywords.secondary, SecondaryPoints, nameL, descL)
    - ExclusionPenalty * ExclusionHits(c.keywords.exclusions, nameL, descL)
  }

  /** One keyword earns between nothing and four times its base, and nothing exactly when it misses. */
  lemma KeywordPointsRange(k: string, base: nat, nameL: string, descL: string)
    ensures 0 <= KeywordPoints(k, base, nameL, descL) <= 4 * base
    ensures base > 0 ==> (KeywordPoints(k, base, nameL, descL) == 0 <==> !Hits(k, nameL, descL))
  {
  }

  lemma MulStep(n: nat, m: nat)
    ensures (n + 1) * m == n * m + m
  {
  }

  /** A keyword list earns between nothing and four times its base per keyword. */
  lemma {:induction false} ListPointsBounds(ks: seq<string>, base: nat, nameL: string, descL: string)
    ensures 0 <= ListPoints(ks, base, nameL, descL) <= |ks| * (4 * base)
    decreases |ks|
  {
    if ks != [] {
      ListPointsBounds(ks[1..], base, nameL, descL);
      KeywordPointsRange(ks[0], base, nameL, descL);
      var m, n := 4 * base, |ks[1..]|;
      assert ListPoints(ks, base, nameL, descL)
          == KeywordPoints(ks[0], base, nameL, descL) + ListPoints(ks[1..], base, nameL, descL);
      MulStep(n, m);
    }
  }

  /** A keyword list earns nothing exactly when none of its keywords hits. */
  lemma {:induction false} ListPointsZero(ks: seq<string>, base: nat, nameL: string, descL: string)
    requires base > 0
    ensures ListPoints(ks, base, nameL, descL) == 0 <==> forall k :: k in ks ==> !Hits(k, nameL, descL)
    decreases |ks|
  {
    if ks != [] {
      ListPointsZero(ks[1..], base, nameL, descL);
      ListPointsBounds(ks[1..], base, nameL, descL);
      KeywordPointsRange(ks[0], base, nameL, descL);
      assert forall k :: k in ks <==> k == ks[0] || k in ks[1..];
    }
  }

  lemma {:induction false} ExclusionHitsBounds(xs: seq<string>, nameL: string, descL: string)
    ensures ExclusionHits(xs, nameL, descL) <= |xs|
    ensures ExclusionHits(xs, nameL, descL) == 0 <==> forall x :: x in xs ==> !Hits(x, nameL, descL)
    decreases |xs|
  {
    if xs != [] {
      ExclusionHitsBounds(xs[1..], nameL, descL);
      assert forall x :: x in xs <==> x == xs[0] || x in xs[1..];
    }
  }

  /**
   The range of a category's score: at most 20 points per primary and 8 per secondary
   keyword, at least -10 per exclusion; and zero when nothing in the table's lists hits.
   */
  lemma ScoreBounds(c: Category, nameL: string, descL: string)
    ensures -ExclusionPenalty * |c.keywords.exclusions| <= Score(c, nameL, descL)
              <= |c.keywords.primary| * 20 + |c.keywords.secondary| * 8
    ensures (forall k :: k in c.keywords.primary + c.keywords.secondary + c.keywords.exclusions ==>
               !Hits(k, nameL, descL)) ==> Score(c, nameL, descL) == 0
  {
    ListPointsBounds(c.keywords.primary, PrimaryPoints, nameL, descL);
    ListPointsBounds(c.keywords.secondary, SecondaryPoints, nameL, descL);
    ExclusionHitsBounds(c.keywords.exclusions, nameL, descL);
    ListPointsZero(c.keywords.primary, PrimaryPoints, nameL, descL);
    ListPointsZero(c.keywords.secondary, SecondaryPoints, nameL, descL);
  }

  /** The scores of the table, in table order. */
  function Scores(table: seq<Category>, nameL: string, descL: string): (r: seq<int>)
    ensures |r| == |table|
    ensures forall i :: 0 <= i < |table| ==> r[i] == Score(table[i], nameL, descL)
  {
    seq(|table|, i requires 0 <= i < |table| => Score(table[i], nameL, descL))
  }

  /** `max(scores, key=scores.get)`: the first index holding the largest score. */
  function BestIndex(scores: seq<int>): (r: nat)
    requires scores != []
    ensures r < |scores|
    ensures forall j :: 0 <= j < |scores| ==> scores[j] <= scores[r]
    ensures forall j :: 0 <= j < r ==> scores[j] < scores[r]
    decreases |scores|
  {
    if |scores| == 1 then 0
    else
      var r := BestIndex(scores[..|scores| - 1]);
      if scores[|scores| - 1] > scores[r] then |scores| - 1 else r
  }

  /**
   The decision: `None` for "Other", otherwise the index of the chosen category. The score
   test is the source's two tests in a row: a largest score of at most zero, then a largest
   score below the threshold.
   */
  function Choose(table: seq<Category>, nameL: string, descL: string): (r: Option<nat>)
  {
    var scores := Scores(table, nameL, descL);
    if scores == [] then None
    else
      var best := BestIndex(scores);
      if scores[best] <= 0 then None
      else if scores[best] < Threshold then None
      else Some(best)
  }

  /**
   The categoriser files a skill under "Other" exactly when the table is empty or every score
   is below the threshold; otherwise it picks the earliest category, in table order, whose
   score is the largest.
   */
  lemma ChooseSpec(table: seq<Category>, nameL: string, descL: string)
    ensures Choose(table, nameL, descL) == None <==>
              forall i :: 0 <= i < |table| ==> Score(table[i], nameL, descL) < Threshold
    ensures Choose(table, nameL, descL).Some? ==>
              var b := Choose(table, nameL, descL).value;
              b < |table| && Score(table[b], nameL, descL) >= Threshold
              && (forall j :: 0 <= j < |table| ==> Score(table[j], nameL, descL) <= Score(table[b], nameL, descL))
              && (forall j :: 0 <= j < b ==> Score(table[j], nameL, descL) < Score(table[b], nameL, descL))
  {
    var scores := Scores(table, nameL, descL);
    if scores != [] {
      var best := BestIndex(scores);
      assert forall i :: 0 <= i < |table| ==> scores[i] == Score(table[i], nameL, descL);
    }
  }

  /** `categorize_skill` over a given table; a missing or empty description scores nothing. */
  function CategorizeWith(table: seq<Category>, skillName: string, description: Option<string>): (r: string)
    ensures Choose(table, Lower(skillName), Lower(OrDefault(description, ""))) == None ==> r == OtherCategory
    ensures Choose(table, Lower(skillName), Lower(OrDefault(description, ""))).Some? ==>
              r == table[Choose(table, Lower(skillName), Lower(OrDefault(description, ""))).value].name
  {
    ChooseSpec(table, Lower(skillName), Lower(OrDefault(description, "")));
    match Choose(table, Lower(skillName), Lower(OrDefault(description, "")))
    case None => OtherCategory
    case Some(i) => table[i].name
  }

  /** The categories of `categorize_skill`, in the order of its table. */
  const Table: seq<Category> := [
      Category("AI & Agents",
        Keywords(["agent", "llm", "ai model", "inference", "swarm", "multi-agent", "autonomous agent"],
                 ["model", "prompt", "embedding"],
                 ["weather model", "data model"])),
      Category("Blockchain & Crypto",
        Keywords(["blockchain", "crypto", "ethereum", "solana", "web3", "defi", "nft", "wallet", "smart contract"],
                 ["token", "swap", "mint"],
                 [])),
      Category("Developer Tools",
        Keywords(["debug", "lint", "test", "build", "deploy", "ci/cd", "git", "github", "compiler"],
                 ["code", "dev", "developer", "refactor"],
                 [])),
      Category("Security",
        Keywords(["security", "vulnerability", "audit", "exploit", "malware"],
                 ["encryption", "auth", "permission", "scan"],
                 [])),
      Category("Communication",
        Keywords(["email", "message", "chat", "telegram", "whatsapp", "discord", "slack"],
                 ["sms", "notification"],
                 ["twitter", "instagram"])),
      Category("Social Media",
        Keywords(["twitter", "instagram", "facebook", "tiktok", "linkedin", "tweet"],
                 ["post", "follower"],
                 [])),
      Category("Data & Analytics",
        Keywords(["analytics", "dashboard", "metrics", "data visualization"],
                 ["data", "report", "stats", "monitor"],
                 ["database"])),
      Category("Web Scraping",
        Keywords(["scrape", "crawl", "spider"],
                 ["fetch", "extract", "parse web"],
                 [])),
      Category("Content Creation",
        Keywords(["generate content", "article generation", "copywriting"],
                 ["content", "blog", "creative"],
                 [])),
      Category("Productivity",
        Keywords(["task management", "todo", "calendar", "time management"],
                 ["schedule", "productivity"],
                 ["zapier", "ifttt"])),
      Category("Finance & Trading",
        Keywords(["stock", "trading", "investment", "portfolio"],
                 ["finance", "market", "price"],
                 ["crypto", "blockchain"])),
      Category("API Integration",
        Keywords(["api gateway", "rest api", "graphql", "webhook"],
                 ["api", "integration", "sdk"],
                 [])),
      Category("Database",
        Keywords(["postgres", "mysql", "mongodb", "redis", "database", "sql query"],
                 ["sql", "nosql"],
                 [])),
      Category("Cloud & Infrastructure",
        Keywords(["aws", "gcp", "azure", "docker", "kubernetes"],
                 ["cloud", "server", "infrastructure"],
                 [])),
      Category("Voice & Audio",
        Keywords(["speech", "tts", "stt", "whisper", "voice recognition"],
                 ["voice", "audio", "transcribe"],
                 ["music", "podcast"])),
      Category("Localization",
        Keywords(["translation", "i18n", "localization", "\U{4E2D}\U{6587}", "wechat", "feishu"],
                 ["chinese", "korean", "japanese"],
                 ["natural language"])),
      Category("Gaming",
        Keywords(["game", "unity", "godot", "unreal", "gaming"],
                 [],
                 [])),
      Category("Memory & Knowledge",
        Keywords(["memory", "knowledge base", "rag", "vector database"],
                 ["knowledge", "vector", "semantic search"],
                 [])),
      Category("Automation & Workflows",
        Keywords(["zapier", "ifttt", "workflow automation", "n8n"],
                 ["automate", "workflow", "trigger"],
                 ["test automation"])),
      Category("Education & Learning",
        Keywords(["tutorial", "course", "learning", "education", "teaching"],
                 ["learn", "student", "lesson"],
                 ["machine learning", "navigate"])),
      Category("File Management",
        Keywords(["file upload", "file download", "backup", "storage", "pdf merge"],
                 ["file", "folder", "directory"],
                 ["profile"])),
      Category("Documentation & Writing",
        Keywords(["documentation", "readme", "wiki", "markdown editor"],
                 ["docs", "markdown"],
                 ["blog", "article"])),
      Category("E-commerce & Shopping",
        Keywords(["ecommerce", "shopify", "shopping cart", "checkout"],
                 ["shop", "store", "product"],
                 [])),
      Category("Books & Reading",
        Keywords(["ebook", "book recommendation", "reading list", "epub"],
                 ["book", "read"],
                 ["facebook", "notebook"])),
      Category("Travel & Location",
        Keywords(["navigate", "city guide", "travel", "tourism", "gps"],
                 ["location", "visitor", "resident"],
                 [])),
      Category("CRM & Sales",
        Keywords(["crm", "salesforce", "hubspot", "sales pipeline"],
                 ["sales", "customer", "lead"],
                 [])),
      Category("News & Media",
        Keywords(["news", "rss feed", "journalism", "media monitoring"],
                 ["article", "feed", "media"],
                 ["social media"])),
      Category("Legal & Compliance",
        Keywords(["legal", "compliance", "gdpr", "contract"],
                 ["privacy", "terms"],
                 [])),
      Category("Health & Fitness",
        Keywords(["fitness", "workout", "nutrition", "medical"],
                 ["health", "exercise"],
                 [])),
      Category("Weather & Environment",
        Keywords(["weather", "forecast", "climate", "temperature"],
                 [],
                 [])),
      Category("Browser & Extensions",
        Keywords(["browser", "chrome extension", "firefox addon"],
                 ["bookmark", "tab"],
                 [])),
      Category("Food & Cooking",
        Keywords(["recipe", "cooking", "restaurant", "meal plan"],
                 ["food", "meal"],
                 [])),
      Category("Sports & Betting",
        Keywords(["sports", "betting", "odds", "league"],
                 ["sport", "match"],
                 [])),
      Category("Project Management",
        Keywords(["project management", "jira", "asana", "trello"],
                 ["project", "ticket"],
                 [])),
      Category("Real Estate",
        Keywords(["real estate", "property", "listing", "mortgage"],
                 [],
                 [])),
      Category("Music & Entertainment",
        Keywords(["music", "spotify", "playlist", "podcast"],
                 ["song", "album"],
                 [])),
      Category("IoT & Hardware",
        Keywords(["iot", "raspberry pi", "arduino", "sensor"],
                 ["device"],
                 ["mobile device"])),
      Category("Video & Streaming",
        Keywords(["video editing", "streaming", "twitch", "youtube"],
                 ["video", "stream"],
                 [])),
      Category("Events & Calendar",
        Keywords(["event", "meeting", "appointment", "booking"],
                 ["calendar"],
                 [])),
      Category("Photography",
        Keywords(["photography", "camera", "photo editing"],
                 ["photo", "picture"],
                 [])),
      Category("HR & Recruiting",
        Keywords(["recruiting", "hiring", "candidate", "resume"],
                 ["employee", "onboarding"],
                 [])),
      Category("Email Marketing",
        Keywords(["newsletter", "email campaign", "mailchimp"],
                 ["subscribe", "mailing"],
                 []))
    ]

  /** `categorize_skill`. */
  function CategorizeSkill(skillName: string, description: Option<string>): string {
    CategorizeWith(Table, skillName, description)
  }

  /** No category of the table is called "Other". */
  lemma TableHasNoOther()
    ensures |Table| == 42
    ensures forall i :: 0 <= i < |Table| ==> Table[i].name != OtherCategory
  {
  }

  /**
   With the source's table, the answer is "Other" exactly when every category scores below
   the threshold; any other answer is the earliest category with the largest score.
   */
  lemma CategorizeSkillSpec(skillName: string, description: Option<string>)
    ensures var nameL, descL := Lower(skillName), Lower(OrDefault(description, ""));
      (CategorizeSkill(skillName, description) == OtherCategory <==>
         forall i :: 0 <= i < |Table| ==> Score(Table[i], nameL, descL) < Threshold)
      && (CategorizeSkill(skillName, description) != OtherCategory ==>
         exists b :: 0 <= b < |Table| && CategorizeSkill(skillName, description) == Table[b].name
           && Score(Table[b], nameL, descL) >= Threshold
           && (forall j :: 0 <= j < |Table| ==> Score(Table[j], nameL, descL) <= Score(Table[b], nameL, descL))
           && (forall j :: 0 <= j < b ==> Score(Table[j], nameL, descL) < Score(Table[b], nameL, descL)))
  {
    var nameL, descL := Lower(skillName), Lower(OrDefault(description, ""));
    ChooseSpec(Table, nameL, descL);
    TableHasNoOther();
  }
}
