/**
 * `scrape_articles`: select the article links of the search results page,
 * visit the first five in order, save each page's paragraphs as a raw
 * article, and save a processed article in the topic folder when the page is
 * relevant and the extraction produced text. An exception while visiting a
 * link ends only that link's visit.
 *
 * The browser, the text splitter and the language model are inputs (a
 * World); the file system is a map from Path to file contents.
 */
module Pipeline {
  import opened Text
  import opened Oracle
  import opened LinkFilter
  import opened Sanitize
  import opened Relevance
  import opened Extraction

  /** What `driver.get(url)` and `soup.find_all("p")` give: the paragraph texts, or an exception. */
  datatype Fetch = Page(paragraphs: seq<string>) | FetchError

  /** The collaborators of one run: the browser, the text splitter and the model. */
  datatype World = World(browse: string -> Fetch, split: string -> seq<string>, llm: Llm)

  /** The arguments of scrape_articles. */
  datatype Run = Run(query: string, outputFolder: string, processedFolder: string)
  {
    /** The topic folder's name under processedFolder. */
    function Topic(): string
    {
      SanitizeFilename(query)
    }
  }

  /**
   * A file of the store. `number` is the 1-based position of the link among
   * the visited ones (`idx + 1`).
   */
  datatype Path =
    | RawArticle(folder: string, number: nat)                     // {output_folder}/article_{number}.txt
    | ProcessedArticle(folder: string, topic: string, number: nat) // {processed_folder}/{topic}/processed_article_{number}.txt

  type Store = map<Path, string>

  /** How one link's visit ended: by an exception, with only the raw file, or with a processed file. */
  datatype LinkReport = Errored | RawSaved | ProcessedSaved

  datatype Visit = Visit(writes: Store, report: LinkReport)

  /** One pass of the loop body in scrape_articles, with the try/except around it. */
  function LinkVisit(run: Run, number: nat, url: string, world: World): (visit: Visit)
    ensures RawArticle(run.outputFolder, number) in visit.writes <==> world.browse(url).Page?
    ensures forall p :: p in visit.writes ==>
      p == RawArticle(run.outputFolder, number) || p == ProcessedArticle(run.processedFolder, run.Topic(), number)
    ensures visit.report == ProcessedSaved <==> ProcessedArticle(run.processedFolder, run.Topic(), number) in visit.writes
  {
    match world.browse(url)
    case FetchError => Visit(map[], Errored)
    case Page(paragraphs) => PageVisit(run, number, Join("\n", paragraphs), world)
  }

  /** The visit once the page is fetched: the raw file is saved before anything else is asked. */
  function PageVisit(run: Run, number: nat, content: string, world: World): (visit: Visit)
    ensures RawArticle(run.outputFolder, number) in visit.writes
    ensures visit.writes[RawArticle(run.outputFolder, number)] == content
    ensures forall p :: p in visit.writes ==>
      p == RawArticle(run.outputFolder, number) || p == ProcessedArticle(run.processedFolder, run.Topic(), number)
    ensures visit.report == ProcessedSaved <==> ProcessedArticle(run.processedFolder, run.Topic(), number) in visit.writes
  {
    var raw := map[RawArticle(run.outputFolder, number) := content];
    match CheckRelevance(run.query, content, world.llm)
    case Raised => Visit(raw, Errored)
    case Returned(relevant) =>
      if !relevant then Visit(raw, RawSaved)
      else ExtractedVisit(run, number, raw, ExtractionResult(run.query, world.split(content), world.llm))
  }

  /** The end of a visit to a relevant page: save the document when there is non-empty text. */
  function ExtractedVisit(run: Run, number: nat, raw: Store, extracted: Outcome<Option<string>>): (visit: Visit)
    ensures var path := ProcessedArticle(run.processedFolder, run.Topic(), number);
      && (visit.report == ProcessedSaved <==>
            extracted.Returned? && extracted.value.Some? && extracted.value.value != "")
      && (visit.report == ProcessedSaved ==> visit.writes == raw[path := extracted.value.value])
      && (visit.report != ProcessedSaved ==> visit.writes == raw)
  {
    match extracted
    case Raised => Visit(raw, Errored)
    case Returned(None) => Visit(raw, RawSaved)
    case Returned(Some(document)) =>
      if document == "" then Visit(raw, RawSaved)
      else Visit(raw[ProcessedArticle(run.processedFolder, run.Topic(), number) := document], ProcessedSaved)
  }

  /** The files written while visiting urls in order, the link at position i numbered i + 1. */
  function RunWrites(run: Run, urls: seq<string>, world: World): (writes: Store)
    ensures forall p :: p in writes ==> 1 <= p.number <= |urls|
    decreases |urls|
  {
    if urls == [] then map[]
    else RunWrites(run, urls[..|urls| - 1], world) + LinkVisit(run, |urls|, urls[|urls| - 1], world).writes
  }

  /** The try block for one link: fetch, save the raw text, check, extract, save the result. */
  method VisitLink(run: Run, number: nat, url: string, world: World, files: Store)
    returns (files': Store, report: LinkReport)
    ensures files' == files + LinkVisit(run, number, url, world).writes
    ensures report == LinkVisit(run, number, url, world).report
  {
    var fetched := world.browse(url);
    if fetched.FetchError? {
      return files, Errored;
    }
    var content := Join("\n", fetched.paragraphs);
    ghost var raw := map[RawArticle(run.outputFolder, number) := content];
    assert LinkVisit(run, number, url, world) == PageVisit(run, number, content, world);
    files' := files[RawArticle(run.outputFolder, number) := content];
    UpdateIsUnion(files, RawArticle(run.outputFolder, number), content);
    var relevant := CheckRelevance(run.query, content, world.llm);
    if relevant.Raised? {
      return files', Errored;
    }
    if !relevant.value {
      return files', RawSaved;
    }
    var extracted, _ := ExtractRelevantInformation(run.query, world.split(content), world.llm);
    assert LinkVisit(run, number, url, world) == ExtractedVisit(run, number, raw, extracted);
    match extracted {
      case Raised =>
        report := Errored;
      case Returned(None) =>
        report := RawSaved;
      case Returned(Some(document)) =>
        if document == "" {
          report := RawSaved;
        } else {
          var path := ProcessedArticle(run.processedFolder, run.Topic(), number);
          UnionUpdate(files, raw, path, document);
          files' := files'[path := document];
          report := ProcessedSaved;
        }
    }
  }

  /** Writing one file is adding a one-file store. */
  lemma UpdateIsUnion(a: Store, p: Path, v: string)
    ensures a[p := v] == a + map[p := v]
  {
  }

  /** Writing a file after a union is writing it into the right-hand store. */
  lemma UnionUpdate(a: Store, b: Store, p: Path, v: string)
    ensures (a + b)[p := v] == a + b[p := v]
  {
  }

  /**
   * scrape_articles after the search: the store afterwards is the store
   * before plus exactly the files the visits of `article_urls[:5]` wrote,
   * and there is one report per visited link.
   */
  method ScrapeArticles(run: Run, hrefs: seq<Option<string>>, world: World, files: Store)
    returns (files': Store, reports: seq<LinkReport>)
    ensures var urls := VisitedUrls(hrefs);
      && files' == files + RunWrites(run, urls, world)
      && reports == RunReports(run, urls, world)
      && |reports| == |urls| <= MaxArticles
  {
    var urls := VisitedUrls(hrefs);
    files', reports := VisitInOrder(run, urls, world, files);
  }

  /** `for idx, url in enumerate(urls)`: each link's visit in turn, numbered idx + 1. */
  method VisitInOrder(run: Run, urls: seq<string>, world: World, files: Store)
    returns (files': Store, reports: seq<LinkReport>)
    ensures files' == files + RunWrites(run, urls, world)
    ensures reports == RunReports(run, urls, world)
  {
    files' := files;
    reports := [];
    var idx := 0;
    while idx < |urls|
      invariant 0 <= idx <= |urls|
      invariant files' == files + RunWrites(run, urls[..idx], world)
      invariant reports == RunReports(run, urls[..idx], world)
    {
      var report;
      VisitStep(run, urls, world, idx, files, files');
      files', report := VisitLink(run, idx + 1, urls[idx], world, files');
      reports := reports + [report];
      idx := idx + 1;
    }
    assert urls[..idx] == urls;
  }

  /** The reports of visiting urls in order, one per link. */
  function RunReports(run: Run, urls: seq<string>, world: World): (reports: seq<LinkReport>)
    ensures |reports| == |urls|
    decreases |urls|
  {
    if urls == [] then []
    else RunReports(run, urls[..|urls| - 1], world) + [LinkVisit(run, |urls|, urls[|urls| - 1], world).report]
  }

  /** One more visit extends both the written files and the reports by that visit's. */
  lemma VisitStep(run: Run, urls: seq<string>, world: World, idx: nat, files: Store, before: Store)
    requires idx < |urls|
    requires before == files + RunWrites(run, urls[..idx], world)
    ensures var visit := LinkVisit(run, idx + 1, urls[idx], world);
      && before + visit.writes == files + RunWrites(run, urls[..idx + 1], world)
      && RunReports(run, urls[..idx + 1], world) == RunReports(run, urls[..idx], world) + [visit.report]
  {
    assert urls[..idx + 1][..idx] == urls[..idx];
    UnionAssoc(files, RunWrites(run, urls[..idx], world), LinkVisit(run, idx + 1, urls[idx], world).writes);
  }

  /** The report for the link at position i is that of its own visit. */
  lemma {:induction false} RunReportsAt(run: Run, urls: seq<string>, world: World, i: nat)
    requires i < |urls|
    ensures RunReports(run, urls, world)[i] == LinkVisit(run, i + 1, urls[i], world).report
    decreases |urls|
  {
    if i < |urls| - 1 {
      RunReportsAt(run, urls[..|urls| - 1], world, i);
    }
  }

  lemma UnionAssoc(a: Store, b: Store, c: Store)
    ensures a + (b + c) == (a + b) + c
  {
  }

  /** A visit writes only its own link's raw file and its processed file in the topic folder. */
  lemma LinkVisitWritesOwnFiles(run: Run, number: nat, url: string, world: World, p: Path)
    requires p in LinkVisit(run, number, url, world).writes
    ensures p == RawArticle(run.outputFolder, number) || p == ProcessedArticle(run.processedFolder, run.Topic(), number)
  {
  }

  /**
   * Nothing but article files of the visited links is written: each written
   * path is the raw file or the topic folder's processed file of some link
   * number between 1 and the number of visited links.
   */
  lemma {:induction false} RunWritesOnlyArticleFiles(run: Run, urls: seq<string>, world: World, p: Path)
    requires p in RunWrites(run, urls, world)
    ensures 1 <= p.number <= |urls|
    ensures p == RawArticle(run.outputFolder, p.number) || p == ProcessedArticle(run.processedFolder, run.Topic(), p.number)
    decreases |urls|
  {
    var init := urls[..|urls| - 1];
    var last := LinkVisit(run, |urls|, urls[|urls| - 1], world).writes;
    assert RunWrites(run, urls, world) == RunWrites(run, init, world) + last;
    if p in last {
      LinkVisitWritesOwnFiles(run, |urls|, urls[|urls| - 1], world, p);
    } else {
      RunWritesOnlyArticleFiles(run, init, world, p);
    }
  }

  /** A file numbered n comes from the visit of link n alone, whatever the other links did. */
  lemma {:induction false} RunWritesAt(run: Run, urls: seq<string>, world: World, p: Path)
    requires 1 <= p.number <= |urls|
    ensures var visit := LinkVisit(run, p.number, urls[p.number - 1], world);
      && (p in RunWrites(run, urls, world) <==> p in visit.writes)
      && (p in visit.writes ==> RunWrites(run, urls, world)[p] == visit.writes[p])
    decreases |urls|
  {
    var init := urls[..|urls| - 1];
    var last := LinkVisit(run, |urls|, urls[|urls| - 1], world).writes;
    assert RunWrites(run, urls, world) == RunWrites(run, init, world) + last;
    if p.number < |urls| {
      if p in last {
        LinkVisitWritesOwnFiles(run, |urls|, urls[|urls| - 1], world, p);
      }
      RunWritesAt(run, init, world, p);
      assert init[p.number - 1] == urls[p.number - 1];
    } else if p in RunWrites(run, init, world) {
      RunWritesOnlyArticleFiles(run, init, world, p);
    }
  }

  /**
   * The raw file article_{i+1}.txt is written iff the page of the link at
   * position i was fetched, and it holds the page's paragraphs joined by
   * newlines, whether or not the page later proves relevant.
   */
  lemma RawArticleIff(run: Run, urls: seq<string>, world: World, i: nat)
    requires i < |urls|
    ensures var path := RawArticle(run.outputFolder, i + 1);
      && (path in RunWrites(run, urls, world) <==> world.browse(urls[i]).Page?)
      && (path in RunWrites(run, urls, world) ==>
            RunWrites(run, urls, world)[path] == Join("\n", world.browse(urls[i]).paragraphs))
  {
    RunWritesAt(run, urls, world, RawArticle(run.outputFolder, i + 1));
  }

  /**
   * The processed file processed_article_{i+1}.txt in the topic folder is
   * written iff the page was fetched, judged relevant, and its extraction
   * returned a non-empty document; it holds that document.
   */
  lemma ProcessedArticleIff(run: Run, urls: seq<string>, world: World, i: nat)
    requires i < |urls|
    ensures var path := ProcessedArticle(run.processedFolder, run.Topic(), i + 1);
      var fetched := world.browse(urls[i]);
      && (path in RunWrites(run, urls, world) <==>
            && fetched.Page?
            && var content := Join("\n", fetched.paragraphs);
            && CheckRelevance(run.query, content, world.llm) == Returned(true)
            && ExtractionResult(run.query, world.split(content), world.llm).Returned?
            && ExtractionResult(run.query, world.split(content), world.llm).value.Some?
            && ExtractionResult(run.query, world.split(content), world.llm).value.value != "")
      && (path in RunWrites(run, urls, world) ==>
            && fetched.Page?
            && var content := Join("\n", fetched.paragraphs);
            Returned(Some(RunWrites(run, urls, world)[path]))
              == ExtractionResult(run.query, world.split(content), world.llm))
  {
    RunWritesAt(run, urls, world, ProcessedArticle(run.processedFolder, run.Topic(), i + 1));
  }

  /** A processed file is only ever written beside the raw file of the same link. */
  lemma ProcessedImpliesRaw(run: Run, urls: seq<string>, world: World, i: nat)
    requires i < |urls|
    requires ProcessedArticle(run.processedFolder, run.Topic(), i + 1) in RunWrites(run, urls, world)
    ensures RawArticle(run.outputFolder, i + 1) in RunWrites(run, urls, world)
  {
    ProcessedArticleIff(run, urls, world, i);
    RawArticleIff(run, urls, world, i);
  }
}
