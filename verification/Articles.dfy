/** The article upsert: one transaction per record, tags carried over when a record has none. */
module Articles {
  import opened Options
  import InstrumentHistory
  import SymbolScanner

  datatype ArticleRecord = ArticleRecord(
    sourceCode: string,
    externalId: string,
    title: string,
    url: string,
    summary: string,
    publishedAt: int,
    sentiment: string,
    sentimentScore: Option<real>,
    metadata: map<string, string>,
    mentionedSymbols: set<string>)

  datatype Fields = Fields(
    title: string,
    url: string,
    summary: string,
    publishedAt: int,
    sentiment: string,
    sentimentScore: Option<real>,
    metadata: map<string, string>)

  datatype Key = Key(source: int, externalId: string)

  /** `links` are the tagged instruments, by row of the instrument table. */
  datatype Article = Article(fields: Fields, links: set<nat>)

  type Table = map<Key, Article>

  /** What a run reads and does not change: the sources by code, the instrument dimension, and the
      regular expression's notion of a word character. */
  datatype Environment = Environment(
    sources: map<string, int>,
    instruments: InstrumentHistory.Rows,
    isWord: char -> bool)

  function Sentiment(s: string): string {
    if s in {"positive", "neutral", "negative"} then s else "neutral"
  }

  function FieldsOf(r: ArticleRecord): Fields {
    Fields(r.title, r.url, r.summary, r.publishedAt, Sentiment(r.sentiment), r.sentimentScore, r.metadata)
  }

  function Symbols(env: Environment, r: ArticleRecord): set<string> {
    r.mentionedSymbols + SymbolScanner.ExtractSymbols(Some(r.title + " " + r.summary), env.isWord)
  }

  /** The current instruments with one of the symbols. */
  function Tagged(env: Environment, symbols: set<string>): set<nat> {
    set i: nat | i < |env.instruments| && env.instruments[i].isCurrent && env.instruments[i].tracked.symbol in symbols
  }

  predicate Known(env: Environment, records: seq<ArticleRecord>) {
    forall i :: 0 <= i < |records| ==> records[i].sourceCode in env.sources
  }

  function KeyOf(env: Environment, r: ArticleRecord): Key
    requires r.sourceCode in env.sources
  {
    Key(env.sources[r.sourceCode], r.externalId)
  }

  function LinksAt(t: Table, key: Key): set<nat> {
    if key in t then t[key].links else {}
  }

  /** One record: its fields always, its links only if it yields a symbol. */
  function Upserted(env: Environment, t: Table, r: ArticleRecord): Table
    requires r.sourceCode in env.sources
  {
    var key, symbols := KeyOf(env, r), Symbols(env, r);
    t[key := Article(FieldsOf(r), if symbols != {} then Tagged(env, symbols) else LinksAt(t, key))]
  }

  function Folded(env: Environment, t: Table, records: seq<ArticleRecord>): Table
    requires Known(env, records)
    decreases |records|
  {
    if records == [] then t
    else Upserted(env, Folded(env, t, records[..|records| - 1]), records[|records| - 1])
  }

  /** The records before the first one whose source does not exist. */
  function KnownPrefix(env: Environment, records: seq<ArticleRecord>): (n: nat)
    ensures n <= |records| && Known(env, records[..n])
    ensures n < |records| ==> records[n].sourceCode !in env.sources
  {
    if records == [] then 0
    else
      var n := KnownPrefix(env, records[..|records| - 1]);
      if n == |records| - 1 && records[n].sourceCode in env.sources then
        assert records[..n + 1] == records[..n] + [records[n]];
        assert records[..|records| - 1][..n] == records[..n];
        n + 1
      else
        assert records[..|records| - 1][..n] == records[..n];
        n
  }

  // ---- what a batch leaves behind ----

  function LastRecord(env: Environment, records: seq<ArticleRecord>, key: Key): (i: Option<nat>)
    requires Known(env, records)
    ensures i.Some? ==> i.value < |records| && KeyOf(env, records[i.value]) == key
    ensures i.Some? ==> forall j :: i.value < j < |records| ==> KeyOf(env, records[j]) != key
    ensures i.None? ==> forall j :: 0 <= j < |records| ==> KeyOf(env, records[j]) != key
    decreases |records|
  {
    if records == [] then None
    else if KeyOf(env, records[|records| - 1]) == key then Some(|records| - 1)
    else LastRecord(env, records[..|records| - 1], key)
  }

  predicate IsTagging(env: Environment, r: ArticleRecord, key: Key)
    requires r.sourceCode in env.sources
  {
    KeyOf(env, r) == key && Symbols(env, r) != {}
  }

  /** The last record of a key that yields a symbol. */
  function LastTagging(env: Environment, records: seq<ArticleRecord>, key: Key): (i: Option<nat>)
    requires Known(env, records)
    ensures i.Some? ==> i.value < |records|
    decreases |records|
  {
    if records == [] then None
    else if IsTagging(env, records[|records| - 1], key) then Some(|records| - 1)
    else LastTagging(env, records[..|records| - 1], key)
  }

  lemma {:induction false} LastTaggingIsLast(env: Environment, records: seq<ArticleRecord>, key: Key)
    requires Known(env, records)
    ensures var last := LastTagging(env, records, key);
            && (last.Some? ==> IsTagging(env, records[last.value], key))
            && forall j :: (if last.Some? then last.value + 1 else 0) <= j < |records| ==>
              !IsTagging(env, records[j], key)
    decreases |records|
  {
    hide IsTagging;
    if records != [] {
      LastTaggingIsLast(env, records[..|records| - 1], key);
    }
  }

  lemma {:induction false} NoRecordNoTagging(env: Environment, records: seq<ArticleRecord>, key: Key)
    requires Known(env, records) && LastRecord(env, records, key).None?
    ensures LastTagging(env, records, key).None?
  {
    hide LastRecord, LastTagging, Symbols;
    LastTaggingIsLast(env, records, key);
  }

  function LinksAfter(env: Environment, t: Table, records: seq<ArticleRecord>, key: Key): set<nat>
    requires Known(env, records)
  {
    match LastTagging(env, records, key)
    case None => LinksAt(t, key)
    case Some(i) => Tagged(env, Symbols(env, records[i]))
  }

  /** The article of a key is decided by the last record of the key and the last that yields a symbol. */
  lemma {:induction false} BatchByKey(env: Environment, t: Table, records: seq<ArticleRecord>, key: Key)
    requires Known(env, records)
    ensures var after := Folded(env, t, records);
            match LastRecord(env, records, key)
            case None => (key in after <==> key in t) && (key in t ==> after[key] == t[key])
            case Some(i) =>
              key in after
              && after[key] == Article(FieldsOf(records[i]), LinksAfter(env, t, records, key))
    decreases |records|
  {
    hide Symbols, Tagged, FieldsOf;
    if records != [] {
      var init := records[..|records| - 1];
      BatchByKey(env, t, init, key);
      if LastRecord(env, init, key).None? {
        NoRecordNoTagging(env, init, key);
      }
    }
  }

  /** The record is about the article of this key. */
  predicate IsAbout(env: Environment, r: ArticleRecord, key: Key) {
    r.sourceCode in env.sources && env.sources[r.sourceCode] == key.source && r.externalId == key.externalId
  }

  /** The record names the symbol, or a word of its title or summary is the symbol. */
  ghost predicate Mentions(env: Environment, r: ArticleRecord, symbol: string) {
    || symbol in r.mentionedSymbols
    || var text := r.title + " " + r.summary;
       exists s :: SymbolScanner.IsTickerSpan(text, env.isWord, s) && symbol == text[s.start..s.end]
  }

  ghost predicate MentionsAny(env: Environment, r: ArticleRecord) {
    exists symbol :: Mentions(env, r, symbol)
  }

  /** Record `i` is the last one about `key`. */
  predicate IsLastAbout(env: Environment, records: seq<ArticleRecord>, key: Key, i: nat) {
    && i < |records| && IsAbout(env, records[i], key)
    && forall j :: i < j < |records| ==> !IsAbout(env, records[j], key)
  }

  /** Record `i` is the last one about `key` that mentions a symbol. */
  ghost predicate IsLastMention(env: Environment, records: seq<ArticleRecord>, key: Key, i: nat) {
    && i < |records| && IsAbout(env, records[i], key) && MentionsAny(env, records[i])
    && forall j :: i < j < |records| && IsAbout(env, records[j], key) ==> !MentionsAny(env, records[j])
  }

  lemma {:induction false} SymbolsAreTheMentions(env: Environment, r: ArticleRecord)
    requires SymbolScanner.ContainsCapitals(env.isWord)
    ensures forall symbol :: symbol in Symbols(env, r) <==> Mentions(env, r, symbol)
    ensures Symbols(env, r) != {} <==> MentionsAny(env, r)
  {
    hide SymbolScanner.IsTickerSpan, SymbolScanner.ExtractSymbols, SymbolScanner.ContainsCapitals;
    var text := r.title + " " + r.summary;
    forall symbol ensures symbol in Symbols(env, r) <==> Mentions(env, r, symbol) {
      SymbolScanner.ExtractedAreTheTickers(text, env.isWord, symbol);
    }
    if Symbols(env, r) != {} {
      var symbol :| symbol in Symbols(env, r);
      assert Mentions(env, r, symbol);
    }
  }

  lemma {:induction false} TaggingIsMention(env: Environment, r: ArticleRecord, key: Key)
    requires SymbolScanner.ContainsCapitals(env.isWord) && r.sourceCode in env.sources
    ensures IsTagging(env, r, key) <==> IsAbout(env, r, key) && MentionsAny(env, r)
  {
    hide Symbols, MentionsAny;
    SymbolsAreTheMentions(env, r);
  }

  lemma {:induction false} LastMentionIsLastTagging(env: Environment, records: seq<ArticleRecord>, key: Key, i: nat)
    requires SymbolScanner.ContainsCapitals(env.isWord) && Known(env, records)
    ensures IsLastMention(env, records, key, i) ==> LastTagging(env, records, key) == Some(i)
    ensures LastTagging(env, records, key).Some? ==>
              IsLastMention(env, records, key, LastTagging(env, records, key).value)
  {
    hide IsTagging, IsAbout, MentionsAny, LastTagging, SymbolScanner.ContainsCapitals;
    LastTaggingIsLast(env, records, key);
    forall j | 0 <= j < |records|
      ensures IsTagging(env, records[j], key) <==> IsAbout(env, records[j], key) && MentionsAny(env, records[j])
    {
      TaggingIsMention(env, records[j], key);
    }
  }

  /** After any batch, repeated keys included, column by column: an article without a record is
      untouched; otherwise its fields are those of the last record about it, with an unknown
      sentiment read as neutral. */
  lemma {:induction false} BatchResult(env: Environment, t: Table, records: seq<ArticleRecord>, key: Key)
    requires Known(env, records)
    ensures var after := Folded(env, t, records);
            && ((forall j :: 0 <= j < |records| ==> !IsAbout(env, records[j], key)) ==>
                  (key in after <==> key in t) && (key in t ==> after[key] == t[key]))
            && (forall i :: 0 <= i < |records| && IsLastAbout(env, records, key, i) ==>
                  && key in after
                  && var (a, r) := (after[key].fields, records[i]);
                     && a.title == r.title && a.url == r.url && a.summary == r.summary
                     && a.publishedAt == r.publishedAt && a.sentimentScore == r.sentimentScore
                     && a.metadata == r.metadata
                     && (r.sentiment in {"positive", "neutral", "negative"} ==> a.sentiment == r.sentiment)
                     && (r.sentiment !in {"positive", "neutral", "negative"} ==> a.sentiment == "neutral"))
  {
    hide Folded, LastRecord, LinksAfter;
    BatchByKey(env, t, records, key);
    var last := LastRecord(env, records, key);
    assert last.Some? ==> IsAbout(env, records[last.value], key);
    forall i | 0 <= i < |records| && IsLastAbout(env, records, key, i) ensures last == Some(i) {
      assert KeyOf(env, records[i]) == key;
    }
  }

  /** ... and its links are the current instruments with a symbol that the last mentioning record
      about it mentions; without such a record they are what they were. */
  lemma {:induction false} BatchLinks(env: Environment, t: Table, records: seq<ArticleRecord>, key: Key)
    requires SymbolScanner.ContainsCapitals(env.isWord) && Known(env, records)
    ensures var links := LinksAt(Folded(env, t, records), key);
            && (forall i :: 0 <= i < |records| && IsLastMention(env, records, key, i) ==>
                  forall row: nat :: row in links <==>
                    && row < |env.instruments| && env.instruments[row].isCurrent
                    && Mentions(env, records[i], env.instruments[row].tracked.symbol))
            && ((forall i :: 0 <= i < |records| ==> !IsLastMention(env, records, key, i)) ==>
                  links == if key in t then t[key].links else {})
  {
    hide Folded, LastRecord, LastTagging, IsLastMention, Mentions, Symbols, FieldsOf, SymbolScanner.ContainsCapitals;
    BatchByKey(env, t, records, key);
    if LastRecord(env, records, key).None? {
      NoRecordNoTagging(env, records, key);
    }
    var last := LastTagging(env, records, key);
    LastMentionIsLastTagging(env, records, key, 0);
    forall i | 0 <= i < |records| && IsLastMention(env, records, key, i) ensures last == Some(i) {
      LastMentionIsLastTagging(env, records, key, i);
    }
    if last.Some? {
      SymbolsAreTheMentions(env, records[last.value]);
    }
  }

  /** Applying the same batch again changes nothing. */
  lemma {:induction false} ReplayIsIdentity(env: Environment, t: Table, records: seq<ArticleRecord>)
    requires Known(env, records)
    ensures Folded(env, Folded(env, t, records), records) == Folded(env, t, records)
  {
    hide Folded, LastRecord, LastTagging, Symbols, Tagged, FieldsOf;
    var once := Folded(env, t, records);
    var twice := Folded(env, once, records);
    forall key ensures (key in twice <==> key in once) && (key in once ==> twice[key] == once[key]) {
      BatchByKey(env, t, records, key);
      BatchByKey(env, once, records, key);
    }
    assert twice.Keys == once.Keys;
  }

  /** An article's links survive a record that yields no symbol, even when the symbols the article
      had before are gone from its text. */
  lemma {:induction false} LinksSurviveUntaggedRecord(env: Environment, t: Table, r: ArticleRecord)
    requires r.sourceCode in env.sources && Symbols(env, r) == {} && KeyOf(env, r) in t
    ensures Folded(env, t, [r])[KeyOf(env, r)].links == t[KeyOf(env, r)].links
  {
    hide Symbols, Tagged, FieldsOf;
    BatchByKey(env, t, [r], KeyOf(env, r));
  }

  // ---- the service ----

  class ArticleStore {
    var articles: Table

    constructor ()
      ensures articles == map[]
    {
      articles := map[];
    }

    /** `update_or_create` plus tagging, in one transaction. */
    method UpsertOne(env: Environment, source: int, r: ArticleRecord)
      requires r.sourceCode in env.sources && source == env.sources[r.sourceCode]
      modifies this
      ensures articles == Upserted(env, old(articles), r)
    {
      var key := Key(source, r.externalId);
      var fields := FieldsOf(r);
      var prior := if key in articles then articles[key].links else {};
      articles := articles[key := Article(fields, prior)];
      var symbols := r.mentionedSymbols + SymbolScanner.ExtractSymbols(Some(r.title + " " + r.summary), env.isWord);
      if symbols != {} {
        var instruments := Tagged(env, symbols);
        articles := articles[key := Article(fields, instruments)];
      }
    }

    /** `upsert_articles`: the number of records, or nothing if a source does not exist; the records
        before that one have then been committed. */
    method UpsertArticles(env: Environment, records: seq<ArticleRecord>) returns (count: Option<nat>)
      modifies this
      ensures count == if Known(env, records) then Some(|records|) else None
      ensures articles == Folded(env, old(articles), records[..KnownPrefix(env, records)])
    {
      hide Symbols, Tagged, FieldsOf, Upserted, KnownPrefix;
      var sourcesByCode: map<string, int> := map[];
      var n := 0;
      for i := 0 to |records|
        invariant n == i
        invariant forall code :: code in sourcesByCode ==>
                    code in env.sources && sourcesByCode[code] == env.sources[code]
        invariant Known(env, records[..i])
        invariant articles == Folded(env, old(articles), records[..i])
      {
        var r := records[i];
        if r.sourceCode !in sourcesByCode {
          if r.sourceCode !in env.sources {
            PrefixEnds(env, records, i);
            return None;
          }
          sourcesByCode := sourcesByCode[r.sourceCode := env.sources[r.sourceCode]];
        }
        assert records[..i + 1] == records[..i] + [r];
        UpsertOne(env, sourcesByCode[r.sourceCode], r);
        n := n + 1;
      }
      assert records[..|records|] == records;
      PrefixEnds(env, records, |records|);
      return Some(n);
    }
  }

  lemma {:induction false} PrefixEnds(env: Environment, records: seq<ArticleRecord>, n: nat)
    requires n <= |records| && Known(env, records[..n])
    requires n < |records| ==> records[n].sourceCode !in env.sources
    ensures KnownPrefix(env, records) == n
  {
    hide KnownPrefix;
    var m := KnownPrefix(env, records);
    forall i | 0 <= i < n ensures records[i].sourceCode in env.sources {
      assert records[..n][i] == records[i];
    }
    forall i | 0 <= i < m ensures records[i].sourceCode in env.sources {
      assert records[..m][i] == records[i];
    }
  }
}
