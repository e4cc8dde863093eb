/** The link-discovery step of `documentScraper/search.py`: a fixed table of
    keyword categories and their definitions, a prompt built from the first
    keyword of the chosen category, and the parsing of the model's reply
    into one URL per non-blank line. The language model is a function from
    the prompt and the region to the text it answers. */
module Search {
  import opened Wrappers
  import opened Strings

  // ---------------------------------------------------------------------
  // Parsing the reply
  // ---------------------------------------------------------------------

  /** The comprehension `[u.strip() for u in lines if u.strip()]`. */
  function KeptLines(lines: seq<string>): seq<string>
    decreases |lines|
  {
    if lines == [] then []
    else
      var u := Strip(lines[0]);
      (if u == [] then [] else [u]) + KeptLines(lines[1..])
  }

  /** `parse_output`: strip the whole text, split it at '\n', and keep each
      stripped line that is not empty. */
  function ParseOutput(text: string): seq<string> {
    KeptLines(Split(Strip(text), '\n'))
  }

  /** A URL as `parse_output` returns it: not empty, nothing to strip, on
      one line. */
  predicate IsCleanLine(u: string) {
    u != [] && IsStripped(u) && '\n' !in u
  }

  lemma {:induction false} KeptLinesClean(lines: seq<string>)
    ensures |KeptLines(lines)| <= |lines|
    ensures (forall k :: 0 <= k < |lines| ==> '\n' !in lines[k]) ==>
              forall k :: 0 <= k < |KeptLines(lines)| ==> IsCleanLine(KeptLines(lines)[k])
    decreases |lines|
  {
    if lines != [] {
      KeptLinesClean(lines[1..]);
      var u := Strip(lines[0]);
      if '\n' !in lines[0] {
        var i, j := StripShape(lines[0]);
        assert forall ch :: ch in u ==> ch in lines[0];
      }
    }
  }

  lemma {:induction false} KeptLinesConcat(a: seq<string>, b: seq<string>)
    ensures KeptLines(a + b) == KeptLines(a) + KeptLines(b)
    decreases |a|
  {
    if a != [] {
      assert (a + b)[0] == a[0] && (a + b)[1..] == a[1..] + b;
      KeptLinesConcat(a[1..], b);
      var u := Strip(a[0]);
      var h := if u == [] then [] else [u];
      assert KeptLines(a + b) == h + (KeptLines(a[1..]) + KeptLines(b));
      assert KeptLines(a) == h + KeptLines(a[1..]);
    } else {
      assert a + b == b;
    }
  }

  lemma KeptLinesSingle(line: string)
    ensures KeptLines([line]) == if Strip(line) == [] then [] else [Strip(line)]
  {
    assert [line][1..] == [];
  }

  /** Every URL returned is non-empty, already stripped, and on one line. */
  lemma ParseOutputClean(text: string)
    ensures forall k :: 0 <= k < |ParseOutput(text)| ==> IsCleanLine(ParseOutput(text)[k])
  {
    KeptLinesClean(Split(Strip(text), '\n'));
  }

  /** Leading whitespace of a text never reaches the result. */
  lemma {:induction false} KeptLinesTrimLeft(t: string)
    ensures KeptLines(Split(TrimLeft(t), '\n')) == KeptLines(Split(t, '\n'))
    decreases |t|
  {
    if |t| > 0 && IsSpace(t[0]) {
      KeptLinesTrimLeft(t[1..]);
      var r := Split(t[1..], '\n');
      if t[0] != '\n' {
        StripConsSpace(t[0], r[0]);
        assert r == [r[0]] + r[1..];
        KeptLinesConcat([r[0]], r[1..]);
        KeptLinesConcat([[t[0]] + r[0]], r[1..]);
      } else {
        KeptLinesConcat([""], r);
      }
    }
  }

  /** Trailing whitespace of a text never reaches the result. */
  lemma {:induction false} KeptLinesTrimRight(t: string)
    ensures KeptLines(Split(TrimRight(t), '\n')) == KeptLines(Split(t, '\n'))
    decreases |t|
  {
    var n := |t|;
    if n > 0 && IsSpace(t[n - 1]) {
      var x, c := t[..n - 1], t[n - 1];
      assert t == x + [c];
      KeptLinesTrimRight(x);
      var p := Split(x, '\n');
      if c == '\n' {
        SplitConcat(x, "", '\n');
        assert x + [c] + "" == t;
        KeptLinesConcat(p, [""]);
        KeptLinesSingle("");
        assert Split(t, '\n') == p + [""];
      } else {
        SplitSnocOther(x, c, '\n');
        var front := p[..|p| - 1];
        assert p == front + [Last(p)];
        StripSnocSpace(Last(p), c);
        KeptLinesConcat(front, [Last(p)]);
        KeptLinesConcat(front, [Last(p) + [c]]);
        KeptLinesSingle(Last(p));
        KeptLinesSingle(Last(p) + [c]);
        assert Split(t, '\n') == front + [Last(p) + [c]];
      }
    }
  }

  /** The outer `strip()` changes nothing: the result is the non-blank
      lines of the raw text, each stripped. */
  lemma OuterStripRedundant(text: string)
    ensures ParseOutput(text) == KeptLines(Split(text, '\n'))
  {
    KeptLinesTrimRight(TrimLeft(text));
    KeptLinesTrimLeft(text);
  }

  /** At most one URL per line of the text. */
  lemma ParseOutputCount(text: string)
    ensures |ParseOutput(text)| <= |Split(text, '\n')| == multiset(text)['\n'] + 1
  {
    OuterStripRedundant(text);
    KeptLinesClean(Split(text, '\n'));
    SplitCount(text, '\n');
  }

  /** A single line gives its stripped self, or nothing when it is blank. */
  lemma ParseOutputLine(line: string)
    requires '\n' !in line
    ensures ParseOutput(line) == if Strip(line) == [] then [] else [Strip(line)]
  {
    OuterStripRedundant(line);
    SplitWithoutSep(line, '\n');
  }

  /** Lines are read in order: the URLs of two texts put one after the
      other on separate lines are those of the first, then those of the
      second. */
  lemma ParseOutputConcat(a: string, b: string)
    ensures ParseOutput(a + "\n" + b) == ParseOutput(a) + ParseOutput(b)
  {
    OuterStripRedundant(a + "\n" + b);
    OuterStripRedundant(a);
    OuterStripRedundant(b);
    SplitConcat(a, b, '\n');
    KeptLinesConcat(Split(a, '\n'), Split(b, '\n'));
  }

  /** Clean URLs written one per line are read back unchanged. */
  lemma {:induction false} ParseOutputOfJoin(urls: seq<string>)
    requires forall k :: 0 <= k < |urls| ==> IsCleanLine(urls[k])
    ensures ParseOutput(Join(urls, "\n")) == urls
    decreases |urls|
  {
    if urls == [] {
      ParseOutputLine("");
    } else if |urls| == 1 {
      ParseOutputLine(urls[0]);
      StripOfStripped(urls[0]);
    } else {
      ParseOutputOfJoin(urls[1..]);
      ParseOutputLine(urls[0]);
      StripOfStripped(urls[0]);
      ParseOutputConcat(urls[0], Join(urls[1..], "\n"));
      assert urls == [urls[0]] + urls[1..];
    }
  }

  /** Writing the parsed URLs one per line and parsing again gives the
      same list. */
  lemma ParseOutputRoundTrip(text: string)
    ensures ParseOutput(Join(ParseOutput(text), "\n")) == ParseOutput(text)
  {
    ParseOutputClean(text);
    ParseOutputOfJoin(ParseOutput(text));
  }

  // ---------------------------------------------------------------------
  // The category tables
  // ---------------------------------------------------------------------

  /** The eight categories the two tables are keyed by. */
  datatype Category =
    | Infrastructure | Environment | Perception | Security
    | Education | Accessibility | EquityAndDiversity | Data

  /** The key a category has in both tables. */
  function CategoryName(c: Category): string {
    match c
    case Infrastructure => "Infrastructure"
    case Environment => "Environment"
    case Perception => "Perception"
    case Security => "Security"
    case Education => "Education"
    case Accessibility => "Accessibility"
    case EquityAndDiversity => "Equity and Diversity"
    case Data => "Data"
  }

  /** The table lookup by key: the category a name denotes, if any. */
  function ParseCategory(name: string): Option<Category> {
    if name == "Infrastructure" then Some(Infrastructure)
    else if name == "Environment" then Some(Environment)
    else if name == "Perception" then Some(Perception)
    else if name == "Security" then Some(Security)
    else if name == "Education" then Some(Education)
    else if name == "Accessibility" then Some(Accessibility)
    else if name == "Equity and Diversity" then Some(EquityAndDiversity)
    else if name == "Data" then Some(Data)
    else None
  }

  /** Names and categories correspond one to one. */
  lemma CategoryNames(name: string, c: Category)
    ensures ParseCategory(CategoryName(c)) == Some(c)
    ensures ParseCategory(name) == Some(c) ==> name == CategoryName(c)
  {
  }

  /** The `KEYWORD_CATEGORIES` entry of a category. */
  function Keywords(c: Category): seq<string> {
    [FirstKeyword(c)] + MoreKeywords(c)
  }

  /** The first keyword of every category but Perception. */
  const GeneralKeyword := "Artificial Intelligence"

  /** The first keyword of a category, the only one the search uses. */
  function FirstKeyword(c: Category): string {
    match c
    case Infrastructure => GeneralKeyword
    case Environment => GeneralKeyword
    case Perception => "Perception"
    case Security => GeneralKeyword
    case Education => GeneralKeyword
    case Accessibility => GeneralKeyword
    case EquityAndDiversity => GeneralKeyword
    case Data => GeneralKeyword
  }

  /** The remaining keywords of a category. */
  function MoreKeywords(c: Category): seq<string> {
    match c
    case Infrastructure => [
      "GenAI", "AI infrastructure", "cloud computing", "data centers",
      "edge computing", "AI accelerators", "GPU", "high-performance computing", "storage infrastructure",
      "distributed systems", "scalability", "cybersecurity", "data privacy",
      "Secure Identity and Access Management", "Data Governance", "Wireless infrastructure",
      "modernization", "energy infrastructure", "critical infrastructure"]
    case Environment => [
      "AI", "sustainable AI", "environmental impact", "green computing",
      "GHG emissions", "carbon footprint", "greenhouse gas emissions", "public disclosure",
      "transparency", "reporting requirements", "protocol standards", "verification", "responsible AI",
      "algorithm transparency", "digital sustainability", "corporate emissions", "measurement"]
    case Perception => [
      "Artificial Intelligence", "AI", "trust", "fear", "expectations", "attitudes",
      "acceptance", "public opinion", "ethics", "transparency", "misconceptions"]
    case Security => [
      "AI", "Cybersecurity", "Security", "Privacy", "Data privacy",
      "Risk Assessment", "Risk Management", "Data protection", "Data breach", "Authentication",
      "Encryption", "Access control", "Anomaly detection", "Malware detection", "Intrusion detection",
      "Threat intelligence", "Unauthorized access", "Information safeguarding", "Human oversight"]
    case Education => [
      "AI", "Education", "AI education", "AI literacy",
      "professional development", "workforce", "curriculum", "personalized learning",
      "adaptive learning", "instructional resources", "critical thinking", "STEM",
      "educational outcomes", "grant programs", "learning pathways", "postsecondary education",
      "machine learning"]
    case Accessibility => [
      "Accessibility", "AI Protections", "Safeguards",
      "Accountability", "Underrepresented students", "accessibility", "standards",
      "Web Content Accessibility Guidelines", "compliance", "Digital Divide", "Digital Inclusion",
      "Equitable AI", "Universal Access", "Affordability", "Technological Literacy",
      "Broadband access", "Internet connectivity", "Remote regions"]
    case EquityAndDiversity => [
      "AI", "Equity", "Diversity", "Bias", "Anti-bias Testing",
      "Algorithmic Fairness", "Inclusion", "Discrimination", "Fairness", "Ethics",
      "Algorithmic Bias", "Equity in AI", "Diversity and Inclusion", "Protected Characteristic",
      "Unlawful Discrimination", "Underrepresented Communities", "Bias Mitigation",
      "Algorithmic Transparency", "Disparate Impact", "Inclusive Design",
      "Equitable Outcomes", "Ethical AI"]
    case Data => [
      "AI", "Data", "Generative AI", "Training Data", "Datasets",
      "Synthetic Data", "Data Collection", "Data Processing", "Data Quality", "Data Governance",
      "Data Privacy", "Data Ownership", "Data Sources", "Transparency", "Compliance",
      "Machine Learning", "Data Accessibility"]
  }

  /** The `CATEGORY_DEFINITIONS` entry of a category. */
  function Definition(c: Category): string {
    match c
    case Infrastructure =>
      "Infrastructure refers to the physical and digital systems—such as computing power, data centers, broadband networks, and cloud platforms—required to develop, deploy, and scale AI technologies."
    case Environment =>
      "Environment includes the ecological and sustainability impacts of AI development and deployment, including emissions, green computing practices, and regulatory transparency."
    case Perception =>
      "Perception refers to how the public and stakeholders view and understand AI, including ethical concerns, transparency, and trust."
    case Security =>
      "Security addresses the risks and protections related to AI systems, including cybersecurity, data protection, and risk management."
    case Education =>
      "Education concerns the development of AI literacy, educational infrastructure, and workforce readiness in AI-related fields."
    case Accessibility =>
      "Accessibility addresses ensuring equitable access to AI benefits, compliance with accessibility standards, and inclusion of underrepresented populations."
    case EquityAndDiversity =>
      "Equity and Diversity involves ensuring that AI systems are fair, inclusive, and free from bias or discrimination."
    case Data =>
      "Data refers to the foundations of AI development, including data collection, processing, governance, and transparency."
  }

  /** Every category has keywords, and the one put in the prompt is its
      first keyword. */
  lemma FirstKeywords(c: Category)
    ensures Keywords(c) != [] && Keywords(c)[0] == FirstKeyword(c)
  {
  }

  /** The first keyword is "Perception" for that category and "Artificial
      Intelligence" for the seven others. */
  lemma FirstKeywordRule(c: Category)
    ensures FirstKeyword(c) == if c == Perception then "Perception" else GeneralKeyword
  {
  }

  // ---------------------------------------------------------------------
  // The search
  // ---------------------------------------------------------------------

  const PromptIntro := "Please provide a list of policy documents from government sources in "
  const PromptTopic := " relating to Artificial Intelligence, "
  const PromptAnd := ", and "
  const PromptStop := ". "
  const PromptDefines := " is defined as follows: "
  const PromptRules :=
    ". Return only policy documents that are PDF sources from government websites. A policy document is a policy passed by the state Senate or Assembly, "
    + "or an Executive Order signed by the Governor, or a policy enacted by a state agency. Return only the URLs separated by line. Include no other text. Make sure these documents are from the last 10 years."

  /** The request sent to the model: the fixed pieces of the prompt text
      with the state, the category, the keyword, the category again and
      its definition in between. */
  function Prompt(state: string, category: string, keyword: string, definition: string): string {
    Interleave([PromptIntro, PromptTopic, PromptAnd, PromptStop, PromptDefines, PromptRules],
               [state, category, keyword, category, definition])
  }

  /** `fixed[0] + values[0] + fixed[1] + ... + values[n-1] + fixed[n]`, the
      way an f-string puts values between its literal parts. */
  function Interleave(fixed: seq<string>, values: seq<string>): string
    requires |fixed| == |values| + 1
    decreases |values|
  {
    if values == [] then fixed[0]
    else fixed[0] + (values[0] + Interleave(fixed[1..], values[1..]))
  }

  /** Every value put into an f-string appears in the result. */
  lemma {:induction false} InterleaveMentions(fixed: seq<string>, values: seq<string>, i: nat)
    requires |fixed| == |values| + 1 && i < |values|
    ensures Contains(Interleave(fixed, values), values[i])
    decreases i
  {
    var rest := Interleave(fixed[1..], values[1..]);
    if i == 0 {
      ContainsFront(values[0], rest);
    } else {
      InterleaveMentions(fixed[1..], values[1..], i - 1);
      ContainsPrepend(values[0], rest, values[i]);
    }
    ContainsPrepend(fixed[0], values[0] + rest, values[i]);
  }

  /** The prompt names the state, the category, the keyword and the
      definition. */
  lemma PromptMentions(state: string, category: string, keyword: string, definition: string)
    ensures var p := Prompt(state, category, keyword, definition);
            Contains(p, state) && Contains(p, category) && Contains(p, keyword) && Contains(p, definition)
  {
    var fixed := [PromptIntro, PromptTopic, PromptAnd, PromptStop, PromptDefines, PromptRules];
    var values := [state, category, keyword, category, definition];
    InterleaveMentions(fixed, values, 0);
    InterleaveMentions(fixed, values, 1);
    InterleaveMentions(fixed, values, 2);
    InterleaveMentions(fixed, values, 4);
  }

  /** Why `search_policy_links` raised: the ValueError for a category
      outside the tables, with its message, or the exception of the call
      to the model. */
  datatype SearchError = Unsupported(message: string) | ModelCallFailed

  /** `search_policy_links`: look the category up, reject it when it has no
      keywords, ask the model about its first keyword and its definition,
      and parse the answer. `ask(prompt, region)` is the model's
      `output_text`, `None` when `client.responses.create` raised. */
  function SearchPolicyLinks(category: string, state: string, ask: (string, string) -> Option<string>)
    : Result<seq<string>, SearchError>
  {
    match ParseCategory(category)
    case None => Err(Unsupported("Unsupported category: " + category))
    case Some(c) =>
      if Keywords(c) == [] then Err(Unsupported("Unsupported category: " + category))
      else
        Answered(ask(Prompt(state, category, Keywords(c)[0], Definition(c)), state))
  }

  /** The parsed answer of the model, or the failure of the call. */
  function Answered(reply: Option<string>): Result<seq<string>, SearchError> {
    match reply
    case None => Err(ModelCallFailed)
    case Some(answer) => Ok(ParseOutput(answer))
  }

  /** A category outside the tables is rejected, with the message naming
      it, before the model is asked; the call fails only when the model
      call raises. */
  lemma SearchErrors(category: string, state: string, ask: (string, string) -> Option<string>)
    ensures SearchPolicyLinks(category, state, ask) == Err(Unsupported("Unsupported category: " + category))
            <==> ParseCategory(category).None?
    ensures SearchPolicyLinks(category, state, ask) == Err(ModelCallFailed) <==>
              ParseCategory(category).Some?
              && var c := ParseCategory(category).value;
                 ask(Prompt(state, category, Keywords(c)[0], Definition(c)), state).None?
  {
    if ParseCategory(category).Some? {
      FirstKeywords(ParseCategory(category).value);
    }
  }

  /** A supported category asks the model once, in the caller's region,
      with the category's first keyword and its definition in the prompt,
      and the reply decides the result. */
  lemma SearchAsks(category: string, c: Category, state: string, ask: (string, string) -> Option<string>)
    requires ParseCategory(category) == Some(c)
    ensures SearchPolicyLinks(category, state, ask) == Answered(ask(Prompt(state, category, Keywords(c)[0], Definition(c)), state))
  {
    FirstKeywords(c);
  }

  /** When the model answers, the result is the parsed answer. */
  lemma SearchResult(category: string, c: Category, state: string, ask: (string, string) -> Option<string>, answer: string)
    requires ParseCategory(category) == Some(c)
    requires ask(Prompt(state, category, Keywords(c)[0], Definition(c)), state) == Some(answer)
    ensures SearchPolicyLinks(category, state, ask) == Ok(ParseOutput(answer))
  {
    SearchAsks(category, c, state, ask);
  }
}
