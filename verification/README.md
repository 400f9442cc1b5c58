# Verified models of the retrieval, dialogue and runtime core

A Dafny model of the parts of this repository whose correctness rests on string, set, arithmetic or
trace arguments, with proofs of what those parts promise. `dafny verify dfyconfig.toml` checks all of it.

| area | files |
|---|---|
| Tokenizer, lexical score and its weights, synonym expansions, candidate pool | `Text`, `Tokenizer`, `Lexical`, `ScoreFormula`, `LexicalWeights`, `Synonyms`, `SynonymRanking`, `Candidates`, `LexiconPool` |
| Identifier normalisation and the ingest-time identifier index | `Identifiers`, `IdentifierForms`, `MetadataIndex`, `MetadataPaths`, `NestingShapes` |
| Backfill of the token-hash column | `Backfill` |
| Template expression language of dc-runtime | `ExprEval`, `ExprLexis`, `ExprGrammar` |
| Component registry of dc-runtime, attribute-name codec | `Registry`, `RegistryEffects`, `CamelAttr` |
| Follow-up resolution and the answer-engine ladder L0 to L4 | `Coreference`, `ResidualTopic`, `FollowupHistory`, `Followups`, `Envelope`, `EnvelopeSurface`, `Ladder`, `Rungs`, `Agent` |
| Percent-encoding, partition keys, tenant key spaces, upload provenance | `Percent`, `PartitionKeys`, `TenantKeys`, `UploadRefs`, `Uploads` |
| base64url and the session cookie | `Base64Url`, `Session` |
| Ranking metrics of the benchmark | `RankMetrics` |

Loops and state changes of the source are methods and classes here, each proved to compute a
specification function; the properties are lemmas about those functions. What the functions mean is stated
a second time without their helpers, by the lemmas named `...Exactly`, `...Split` and `...Appends`: in terms of
characters, sets, positions, record fields and the source's own constants.

## How the outside world enters

- Unicode facts (`\w`, `\s`, digits, per-character lower-casing that serves as case-folding) are an
  `Alphabet`; every result holds for every alphabet that satisfies its `Valid` predicate.
- Regular expressions for identifiers are arbitrary: a query or text comes with the list or set of its
  matches. Where a result needs to know that a match cannot cross a space, the lemma says so (`IdsSplit`).
- CRC-32, HMAC-SHA-256 and the JSON codec are arbitrary functions (the codec one that reads back what it wrote); clocks,
  storage answers, fetch results and job outcomes are parameters.
- The answerer, the language models, the gate and the decision maker are arbitrary functions. The agent's
  inner engine and decision maker are functions of everything that happened before, which covers stateful ones.
- JavaScript values, truthiness, equality and property lookup are an uninterpreted `Host`.
- Scores and metrics are computed over `real`; the logarithmic discount is any positive, strictly
  decreasing weight.

## What the proofs found

Where a promise of the code or its comments fails, the model keeps the code and a lemma says exactly when
the promise holds.

- The candidate pool under-selects exactly for CJK alternatives that are not robust, such as a single
  character (`Candidates.UnderSelectionExactly`, and for lexicon entries `LexiconPool.SynonymIsSafeExactly`), although a
  comment says it never does.
- The hashed match count can fall below the direct one exactly when two query terms collide
  (`Candidates.HashedCountExactly`). It can exceed it without any collision: the marker stored for a text
  without tokens counts as a match when a query term hashes to 0 (`Candidates.HashedCountAgreesExactly`).
- "A synonym hit never outranks a direct hit at equal coverage" holds for texts covered only through
  synonyms; with mixed coverage it fails exactly when the density advantage outweighs the discount
  (`Lexical.MixedOutranksExactly`, `SynonymRanking.MixedHitCanOutrankDirectHit`).
- Lexicon members match on whole tokens, but the source terms of an expansion are found as substrings of
  the members, so an unrelated query term can be covered (`SynonymRanking.TermInsideMemberIsCovered`);
  that cannot happen exactly when no possible query term lies inside a member
  (`SynonymRanking.SourceTermsAreTokensExactly`).
- The weights stop ordering hits at the cap: any two hits that name three identifiers tie
  (`LexicalWeights.ThreeIdentifiersReachTheCap`).
- The identifier column is the same predicate exactly for the nesting shapes in which each item of a hot
  list has place for at most one scalar (`NestingShapes.ShapeIsServedExactly`); a list of two identifiers
  inside a list escapes it (`MetadataIndex.NestedListEscapesTheIndex`).
- The backfill loop never ends when some stored text is non-empty but all white space
  (`Backfill.RunsExactlyUntilDone`, `Backfill.OneSpaceNeverEnds`).
- `standalone_query` is idempotent exactly when every signal term is case-folded; an upper-case document
  id is appended again by every rewrite (`Coreference.UppercaseIdIsAppendedAgain`), and two stacked
  rewriters then lose the raw intent (`Ladder.DoubleRewriteLosesIntentExactly`); the service itself stacks
  at most one (src/raku_rag/chatbot/service.py:567-624).
- Quotes do not protect an equality operator inside a string literal of the template language
  (`ExprGrammar.LiteralReadsBackExactly`).
- A late sibling fetch is kept from overwriting by the source, not by the template: an installed template
  whose source is empty is overwritten (`Registry.LateFetchKeepsTemplateExactly`).
- The page's own refetch after boot has no guard: it undoes an edit streamed in meanwhile
  (`Registry.EditSurvivesPageRefetchExactly`).
- Tenants whose percent-encoded id reaches 180 characters share key space with others
  (`TenantKeys.IsolatedExactly`).
- An upload record whose key holds `?` or `#`, or starts with `/`, or whose bucket holds a delimiter,
  names another object once its reference is parsed (`TenantKeys.RecordRefParsesExactly`); an ingest job then
  runs on that object, still inside the tenant's key space (`Uploads.JobNamesOwnObject`).
- A ranking with a repeated result beats the ideal DCG for some gold set (`RankMetrics.DistinctExactly`).

## Model

| member | source | states |
|---|---|---|
| Text.RetrievalTokensLoop | src/raku_rag/core/text.py:94-113 | the loop over word runs appends exactly the tokens of the text: the specification of runs, CJK bigrams and stop words |
| Text.RunsAreMaximal | src/raku_rag/core/text.py:94-113 | the runs are the maximal word-character blocks of the text, in order |
| Text.TokenIffRun | src/raku_rag/core/text.py:94-113 | a token is emitted if and only if some maximal run of the lower-cased text emits it |
| Text.RunAround | src/raku_rag/core/text.py:94-113 | a block of word characters lies inside one maximal run |
| Text.TokensAreLower | src/raku_rag/core/text.py:94-113 | every token of a text is lower-case |
| Tokenizer.TokensSplit | src/raku_rag/core/text.py:94-113 | the token sequence of a text is that before and that after any separator in it |
| Tokenizer.TokensOfBlock | src/raku_rag/core/text.py:11-113 | what a text without a separator yields: itself, nothing for a stop word, or its pairs of neighbours when it has a Japanese character |
| Lexical.SignalTerms | src/raku_rag/core/hybrid_retrieval.py:262-272 | the query terms are exactly the distinct case-folded signal tokens |
| Lexical.SynonymCoveredLoop | src/raku_rag/core/hybrid_retrieval.py:399-418 | the loop over expansions computes the set of unmatched terms some present alternative covers, whatever it skips |
| Lexical.ScoreRange | src/raku_rag/core/hybrid_retrieval.py:373-430 | the score is positive exactly on a covered term, is 0 or in [0.70, 1.20], and stays below the metadata-exact score |
| Lexical.ScoreGrowsWithExpansions | src/raku_rag/core/hybrid_retrieval.py:392-430 | adding expansions never lowers a score |
| Lexical.ScoreIgnoresExpansionOrder | src/raku_rag/core/hybrid_retrieval.py:392-430 | order and repetition of expansions do not matter |
| Lexical.MixedOutranksExactly | src/raku_rag/core/hybrid_retrieval.py:60-66 | of two hits on the same covered set, the one that needs synonyms scores above the all-direct one if and only if its density advantage outweighs the synonym discount and the direct one is below the cap |
| Lexical.SynonymHitBelowDirectHit | src/raku_rag/core/hybrid_retrieval.py:60-66 | a text covered only through synonyms scores strictly below every direct text on the same set, up to the cap |
| ScoreFormula.TermsExactly | src/raku_rag/core/hybrid_retrieval.py:262-272 | a query term is a token of the query with three characters, a kana or ideograph, or two characters and a digit |
| ScoreFormula.PhrasePresentExactly | src/raku_rag/core/hybrid_retrieval.py:124-134 | a phrase with kana or ideographs is present where it stands in the text, any other when each of its tokens is one of the text |
| ScoreFormula.DensityExactly | src/raku_rag/core/hybrid_retrieval.py:419-423 | the density is the share of positions that hold one of the first three occurrences of a matched term, so its cap at 1 never takes effect |
| ScoreFormula.ScoreExactly | src/raku_rag/core/hybrid_retrieval.py:373-430 | the whole score in closed form over the sets of direct and synonym terms, with all its weights |
| ScoreFormula.RecencyExactly | src/raku_rag/core/hybrid_retrieval.py:450-462 | the recency boost at every age |
| LexicalWeights.NewerScoresHigherExactly | src/raku_rag/core/hybrid_retrieval.py:419-462 | of two dates of one hit the newer scores strictly higher if and only if the older lies in the past, the newer is less than ten years old and the older form is below the cap |
| LexicalWeights.OutranksAtAllDatesExactly | src/raku_rag/core/hybrid_retrieval.py:419-430 | a hit scores above another chunk whatever their dates if and only if that one is no hit, or trails undated against newest and stays below the cap |
| LexicalWeights.OneTermOutweighsDatesExactly | src/raku_rag/core/hybrid_retrieval.py:42-49 | other things equal, a chunk with one more direct term scores above another at all dates if and only if the other is no hit, or the query has at most 17 terms and the other's newest form is below the cap |
| LexicalWeights.IdentifierOutweighsExactly | src/raku_rag/core/hybrid_retrieval.py:50-59 | a hit naming more identifiers, its coverage less than two sevenths short, scores above another hit at all dates and densities if and only if the other's newest form is below the cap |
| LexicalWeights.ThreeIdentifiersReachTheCap | src/raku_rag/core/hybrid_retrieval.py:426-430 | a hit naming three identifiers scores exactly the cap |
| SynonymRanking.TokensOfJoin | src/raku_rag/core/text.py:94-113 | tokenizing inverts joining plain words by spaces |
| Synonyms.SynonymExpansionsLoop | src/raku_rag/core/hybrid_retrieval.py:83-121 | the loop over lexicon entries, with its early exits, computes the specified expansions |
| Synonyms.ExpansionsExactly | src/raku_rag/core/hybrid_retrieval.py:97-121 | an expansion is produced if and only if some entry contributes it |
| Synonyms.ExpansionFacts | src/raku_rag/core/hybrid_retrieval.py:69-121 | source terms are query terms inside members the query uses, alternatives are exactly the members it does not use, and neither is empty |
| Synonyms.ContributesExactly | src/raku_rag/core/hybrid_retrieval.py:97-121 | an entry contributes if and only if the query uses a member with a query term inside and leaves a member unused; it contributes all such terms and all unused members |
| Synonyms.ScoreIgnoresLayout | src/raku_rag/core/hybrid_retrieval.py:89-92 | which member is the key, their order, spelling and repetition never change a score |
| Synonyms.LexiconGrowthNeverLowers | src/raku_rag/core/hybrid_retrieval.py:83-121 | a larger lexicon never lowers a score |
| SynonymRanking.SourceTermsAreTokensExactly | src/raku_rag/core/hybrid_retrieval.py:94-118 | for an entry of lower-case words without CJK characters, every source term of every query is a whole token of a member the query uses if and only if the entry has one member or no possible query term lies inside a member |
| SynonymRanking.TermInsideMemberIsCovered | src/raku_rag/core/hybrid_retrieval.py:94-118 | the failing input: a query term inside a member, and a token of none, is covered by a text with the synonym alone |
| SynonymRanking.MixedHitCanOutrankDirectHit | src/raku_rag/core/hybrid_retrieval.py:60-66 | the ranking contract fails at mixed coverage: for the expansions of one lexicon entry the scores are 1.0625 against 1.062 |
| Candidates.RobustPhraseLeavesToken | src/raku_rag/core/hybrid_retrieval.py:124-134 | a text that contains a robust phrase has one of the phrase's own tokens |
| Candidates.RobustExactly | src/raku_rag/core/hybrid_retrieval.py:334-350 | a phrase leaves one of its tokens in every text containing it if and only if it is robust |
| Candidates.FragileEscape | src/raku_rag/core/hybrid_retrieval.py:334-350 | for a phrase that is not robust, a text that contains it and none of its tokens |
| Candidates.CandidatesNeverUnderSelect | src/raku_rag/core/hybrid_retrieval.py:334-350 | a text with a positive score meets the candidate tokens, when every CJK alternative is robust |
| Candidates.UnderSelectionExactly | src/raku_rag/core/hybrid_retrieval.py:334-350 | the pool is complete for an alternative, over all queries, texts and source terms, if and only if it is robust |
| LexiconPool.RobustEntryIsComplete | src/raku_rag/core/hybrid_retrieval.py:83-121 | a lexicon entry whose CJK members are all robust has a complete pool, over all queries and texts |
| LexiconPool.SynonymIsSafeExactly | src/raku_rag/core/hybrid_retrieval.py:83-121 | a CJK synonym has a complete pool under every key without CJK characters if and only if it is robust |
| Candidates.HashedPoolRefines | src/raku_rag/core/hybrid_retrieval.py:353-360 | for any hash, token eligibility implies hash eligibility |
| Candidates.ScoredRowsAreHashEligible | src/raku_rag/core/hybrid_retrieval.py:297-360 | a row with a positive score has a stored hash among the candidate hashes, when every CJK alternative is robust |
| Candidates.HashedCountExactly | src/raku_rag/core/hybrid_retrieval.py:310-370 | the count over the stored column is never below the direct count, in any text, if and only if no two terms of the query collide |
| Candidates.CollisionUnderCounts | src/raku_rag/core/hybrid_retrieval.py:363-370 | with a collision, a row whose text is the query is under-counted |
| Candidates.HashedCountAgreesExactly | src/raku_rag/core/hybrid_retrieval.py:297-370 | without a collision among terms and tokens the counts agree if and only if the text has a token, or is blank, or no term hashes to the marker 0 |
| Candidates.MarkerIsCounted | src/raku_rag/core/hybrid_retrieval.py:317-326 | a text of one visible non-word character counts one hash match and no direct match, when a term hashes to the marker |
| Candidates.StoredEmptyIffBlank | src/raku_rag/core/hybrid_retrieval.py:310-326 | the stored hashes are empty if and only if the text has no visible character |
| Candidates.EligibleExactly | src/raku_rag/core/hybrid_retrieval.py:334-350 | a row is in the pool if and only if one of its tokens is a query term or a token of an alternative |
| Candidates.StoredExactly | src/raku_rag/core/hybrid_retrieval.py:310-326 | the stored hashes are those of the tokens, and 0 for a visible text without tokens |
| Candidates.HashPoolExactly | src/raku_rag/core/hybrid_retrieval.py:329-370 | which rows the hash pool holds, and what the two ordering keys count |
| Identifiers.CompactIsFilter | src/raku_rag/core/hybrid_retrieval.py:149-158 | compaction keeps exactly the identifier characters of the folded value |
| Identifiers.NormalizeIdempotent | src/raku_rag/core/hybrid_retrieval.py:149-153 | normalising twice is normalising once |
| Identifiers.CompactIsFixed | src/raku_rag/core/hybrid_retrieval.py:149-158 | a compact form normalises to itself |
| Identifiers.QueryIdentifiersLoop | src/raku_rag/core/hybrid_retrieval.py:161-177 | the loop collects both forms of exactly the qualifying matches |
| Identifiers.QueryIdentifiersClosed | src/raku_rag/core/hybrid_retrieval.py:161-177 | extracted identifiers are closed under compaction, folded, and have a non-empty compact form |
| IdentifierForms.NormalizeSplits | src/raku_rag/core/hybrid_retrieval.py:149-153 | the normal form splits at every character that is no small letter or digit, with one dash where both sides have something |
| IdentifierForms.NormalizeOfWord | src/raku_rag/core/hybrid_retrieval.py:149-158 | a value of letters and digits is only case-folded, in both forms |
| IdentifierForms.IdentifiersExactly | src/raku_rag/core/hybrid_retrieval.py:161-177 | an identifier is a form of a match with three characters besides dashes and a dash or a digit |
| IdentifierForms.CountedExactly | src/raku_rag/core/hybrid_retrieval.py:433-447 | the identifier count of a text is the number of compact forms that query and text share |
| MetadataIndex.MatchedIdentifierCompactsLoop | src/raku_rag/core/hybrid_retrieval.py:194-219 | the nested loops, skipping compacts already found, compute the compacts of the identifiers that match some hot value |
| MetadataIndex.HotIdentifierCompactsLoop | src/raku_rag/core/hybrid_retrieval.py:236-259 | the loops compute the non-empty compacts of all one-level hot values |
| MetadataIndex.MatchedIsLeafIntersection | src/raku_rag/core/hybrid_retrieval.py:194-219 | at any nesting, the matched compacts are the query compacts shared with the leaves |
| MetadataIndex.IndexIsExact | src/raku_rag/core/hybrid_retrieval.py:180-259 | for extracted identifiers and values nested at most one list deep, matched compacts are the intersection with the column, and the predicate holds if and only if it is non-empty |
| MetadataIndex.IndexIsExactExactlyWhenClosed | src/raku_rag/core/hybrid_retrieval.py:194-259 | an identifier set is served exactly by the column, over all flat metadata, if and only if it is closed under compaction |
| NestingShapes.OneInnerListExactly | src/raku_rag/core/hybrid_retrieval.py:194-259 | a hot list holding one list, nested to any depth, is served for every closed identifier set if and only if that list has at most one non-empty leaf compact |
| NestingShapes.ShapeIsServedExactly | src/raku_rag/core/hybrid_retrieval.py:194-259 | a nesting shape is served, whatever fills it, if and only if each item of the hot list has place for at most one scalar |
| NestingShapes.IndexIsExactBeyondFlat | src/raku_rag/core/hybrid_retrieval.py:180-259 | for extracted identifiers the index is the same predicate on all metadata with at most one leaf per list item |
| MetadataIndex.NestedListEscapesTheIndex | src/raku_rag/core/hybrid_retrieval.py:236-259 | a list of two identifiers inside a list matches the predicate and is missed by the column |
| MetadataIndex.MatchesIffMatched | src/raku_rag/core/hybrid_retrieval.py:180-219 | the predicate holds if and only if some identifier is matched on its own |
| MetadataPaths.HotValuesExactly | src/raku_rag/core/hybrid_retrieval.py:465-476 | a value is hot if and only if at most three nesting keys lead to a mapping that holds it under a hot field |
| MetadataPaths.ValueMatchesExactly | src/raku_rag/core/hybrid_retrieval.py:513-523 | a value matches if and only if a text at some depth of its lists has a form among the identifiers |
| MetadataPaths.PredicateAndColumnOverPaths | src/raku_rag/core/hybrid_retrieval.py:180-259 | the predicate and the column over those paths and texts, with the keys and fields named |
| Backfill.ChunkTable.SelectBatch | scripts/backfill_lexical_token_hashes.py:60-68 | a batch is any set of pending rows of the limited size |
| Backfill.ChunkTable.UpdateBatch | scripts/backfill_lexical_token_hashes.py:74-82 | exactly the selected rows get the value ingest would write |
| Backfill.ChunkTable.Run | scripts/backfill_lexical_token_hashes.py:59-83 | without a stuck row the loop ends, fills exactly the pending rows and counts them; a dry run changes nothing |
| Backfill.RunKeepsStuck | scripts/backfill_lexical_token_hashes.py:59-83 | every run keeps the stuck rows stuck, and without one each pass makes progress |
| Backfill.RunsExactlyUntilDone | scripts/backfill_lexical_token_hashes.py:59-83 | every run finishes within as many passes as pending rows if and only if no pending text is blank; otherwise none ever does |
| Backfill.OneSpaceNeverEnds | scripts/backfill_lexical_token_hashes.py:59-83 | a table of one row whose text is a space is never finished |
| Backfill.EveryOrderEndsAlike | scripts/backfill_lexical_token_hashes.py:59-83 | every finished run, however its batches are chosen, ends in the table where exactly the pending rows hold ingest's value, and a further pass changes nothing |
| Backfill.StuckExactly | scripts/backfill_lexical_token_hashes.py:62-64 | the stuck rows have an empty column and a text that is not empty but all white space |
| Backfill.DoneExactly | scripts/backfill_lexical_token_hashes.py:58-83 | row by row what a finished run leaves: only a row without text still has an empty column |
| ExprEval.ParensWrapWholeLoop | LP/assets/9367c065-0eb8-43d7-96aa-cd5bd931f686.js:224-234 | the depth loop decides whether the outer parentheses match each other |
| ExprEval.FindTopLevelEqualityLoop | LP/assets/9367c065-0eb8-43d7-96aa-cd5bd931f686.js:235-249 | the scan finds the first operator outside brackets |
| ExprEval.CloseLoop | LP/assets/9367c065-0eb8-43d7-96aa-cd5bd931f686.js:250-281 | the inner scan finds the matching square bracket or the end |
| ExprEval.ResolvePathLoop | LP/assets/9367c065-0eb8-43d7-96aa-cd5bd931f686.js:250-281 | the path loop computes the segment-by-segment lookup; it terminates on every text |
| ExprEval.ResolveMethod | LP/assets/9367c065-0eb8-43d7-96aa-cd5bd931f686.js:192-223 | the recursive evaluator computes its specification; each call gets a shorter text |
| ExprGrammar.PrintShape | LP/assets/9367c065-0eb8-43d7-96aa-cd5bd931f686.js:192-249 | a printed expression is balanced, begins and ends visibly, and has no operator in the open unless it is an equality |
| ExprGrammar.ResolvePrinted | LP/assets/9367c065-0eb8-43d7-96aa-cd5bd931f686.js:192-281 | every well-formed expression, printed with any blanks, evaluates to its meaning |
| ExprGrammar.ResolveSegs | LP/assets/9367c065-0eb8-43d7-96aa-cd5bd931f686.js:250-281 | printed path segments evaluate to the chain of lookups |
| ExprGrammar.LiteralReadsBackExactly | LP/assets/9367c065-0eb8-43d7-96aa-cd5bd931f686.js:192-223 | a quoted text reads back as its body if and only if the scan finds no operator in it |
| ExprGrammar.LiteralWithOperatorIsSplit | LP/assets/9367c065-0eb8-43d7-96aa-cd5bd931f686.js:192-223 | the literal "a==b" does not read back |
| ExprGrammar.ChainsToTheRight | LP/assets/9367c065-0eb8-43d7-96aa-cd5bd931f686.js:192-249 | unparenthesised equalities associate to the right |
| ExprGrammar.FourEqualities | LP/assets/9367c065-0eb8-43d7-96aa-cd5bd931f686.js:192-223 | each of the four operators compares the meanings of its two sides, strictly or loosely, negated or not |
| ExprGrammar.LookupsSpelledOut | LP/assets/9367c065-0eb8-43d7-96aa-cd5bd931f686.js:250-281 | what a name, a field, a position and a bracketed key look up, undefined on nothing |
| ExprGrammar.AtomsSpelledOut | LP/assets/9367c065-0eb8-43d7-96aa-cd5bd931f686.js:192-223 | the four keywords, and texts in either quotes |
| ExprLexis.NameLengthExactly | LP/assets/9367c065-0eb8-43d7-96aa-cd5bd931f686.js:190-191 | a name is read as far as its letters, digits, underscores and dollar signs go, digits as far as they go |
| ExprLexis.NumberExactly | LP/assets/9367c065-0eb8-43d7-96aa-cd5bd931f686.js:191-191 | a number is an optional minus, digits, and an optional point with more digits |
| ExprLexis.WhiteExactly | LP/assets/9367c065-0eb8-43d7-96aa-cd5bd931f686.js:193-193 | what trimming takes off |
| ExprLexis.WrapExactly | LP/assets/9367c065-0eb8-43d7-96aa-cd5bd931f686.js:224-234 | parentheses wrap the whole if and only if no shorter front that ends in a closing one is balanced |
| ExprLexis.OperatorExactly | LP/assets/9367c065-0eb8-43d7-96aa-cd5bd931f686.js:235-249 | an operator stands between two parts if and only if the second starts with it and the first is not blank, balanced in its brackets and ends in no operator character |
| ExprLexis.OperatorTextExactly | LP/assets/9367c065-0eb8-43d7-96aa-cd5bd931f686.js:245-246 | which of the four operators it is: by its first character and whether a second `=` follows |
| ExprLexis.AtomExactly | LP/assets/9367c065-0eb8-43d7-96aa-cd5bd931f686.js:213-222 | what is no keyword and no number is the body between two equal quotes, or else a path |
| ExprLexis.BrokenPathIsUndefined | LP/assets/9367c065-0eb8-43d7-96aa-cd5bd931f686.js:250-281 | once the rest of a path is broken its value is undefined, whatever was looked up before |
| CamelAttr.DecodeEncodeExactly | LP/assets/9367c065-0eb8-43d7-96aa-cd5bd931f686.js:321-343 | decoding inverts encoding if and only if the name has no dash before a small letter |
| CamelAttr.EncodeDecodeExactly | LP/assets/9367c065-0eb8-43d7-96aa-cd5bd931f686.js:321-343 | encoding inverts decoding if and only if the text has no capital |
| CamelAttr.NamesSurviveTheParser | LP/assets/9367c065-0eb8-43d7-96aa-cd5bd931f686.js:321-343 | dash-free names survive the lower-casing parser and are never confused |
| CamelAttr.LettersExactly | LP/assets/9367c065-0eb8-43d7-96aa-cd5bd931f686.js:321-343 | each of the 26 capitals stands for a dash and its small letter |
| CamelAttr.EncodeConcat | LP/assets/9367c065-0eb8-43d7-96aa-cd5bd931f686.js:321-332 | encoding goes character by character |
| CamelAttr.CapitalsSplit | LP/assets/9367c065-0eb8-43d7-96aa-cd5bd931f686.js:341-343 | a capital in an encoded text stays and separates what is decoded around it |
| Registry.Runtime.ScanStreaming | LP/assets/9367c065-0eb8-43d7-96aa-cd5bd931f686.js:1378-1388 | the scan over the entries decides whether some entry streams |
| Registry.Runtime.SetStreamingFlag | LP/assets/9367c065-0eb8-43d7-96aa-cd5bd931f686.js:1374-1388 | sets the flag, recomputes the document class and raises the version |
| Registry.Runtime.BumpEvery | LP/assets/9367c065-0eb8-43d7-96aa-cd5bd931f686.js:1273-1275 | raises every version by one and changes nothing else |
| Registry.Runtime.Fetch | LP/assets/9367c065-0eb8-43d7-96aa-cd5bd931f686.js:1300-1304 | marks and fetches a component only when it is not marked |
| Registry.Runtime.SetHtml | LP/assets/9367c065-0eb8-43d7-96aa-cd5bd931f686.js:1340-1349 | installs the source, keeps the old compiled template when compiling fails, raises the version |
| Registry.Runtime.SetJs | LP/assets/9367c065-0eb8-43d7-96aa-cd5bd931f686.js:1350-1373 | evaluation with re-entrant updates: the verdict counts only if no other evaluation of the component began |
| Registry.Runtime.Perform | LP/assets/9367c065-0eb8-43d7-96aa-cd5bd931f686.js:1300-1428 | every public operation and fetch completion changes the runtime as its step says |
| Registry.Runtime.PerformAll | LP/assets/9367c065-0eb8-43d7-96aa-cd5bd931f686.js:1300-1428 | a run of operations composes the steps |
| Registry.StepAdvances | LP/assets/9367c065-0eb8-43d7-96aa-cd5bd931f686.js:1300-1428 | every operation, whatever it re-enters, keeps soundness, never lowers a version and announces every visible change |
| Registry.WithJsAdvances | LP/assets/9367c065-0eb8-43d7-96aa-cd5bd931f686.js:1350-1373 | so does an evaluation with arbitrary nested operations, and the entry ends on the verdict started last |
| Registry.RunAdvances | LP/assets/9367c065-0eb8-43d7-96aa-cd5bd931f686.js:1300-1428 | the same over every interleaving |
| Registry.RunFromEmpty | LP/assets/9367c065-0eb8-43d7-96aa-cd5bd931f686.js:1250-1388 | from the start: the streaming class is on if and only if some entry streams, no component is fetched twice, and each entry shows the verdict of the evaluation started last |
| Registry.NeverFetchedAgain | LP/assets/9367c065-0eb8-43d7-96aa-cd5bd931f686.js:1300-1304 | a marked component is never fetched afterwards |
| Registry.LateFetchKeepsTemplateExactly | LP/assets/9367c065-0eb8-43d7-96aa-cd5bd931f686.js:1330-1330 | an installed template survives every late completion if and only if its source is not empty |
| Registry.EmptyTemplateIsOverwritten | LP/assets/9367c065-0eb8-43d7-96aa-cd5bd931f686.js:1330-1330 | the failing run: an empty template streamed in while the fetch is under way is replaced |
| Registry.LateFetchIgnoresInstalledParts | LP/assets/9367c065-0eb8-43d7-96aa-cd5bd931f686.js:1317-1333 | where the source is not empty a completion acts as if it brought no template, where a class is installed as if it brought no script |
| Registry.FetchedClassYields | LP/assets/9367c065-0eb8-43d7-96aa-cd5bd931f686.js:1350-1373 | a class installed during the evaluation of the fetched script stays |
| Registry.QuietRun | LP/assets/9367c065-0eb8-43d7-96aa-cd5bd931f686.js:1300-1428 | a non-empty source and its template outlive every run of operations that do not write them, sibling completions and nested evaluations included |
| Registry.EditSurvivesPageRefetchExactly | LP/assets/9367c065-0eb8-43d7-96aa-cd5bd931f686.js:148-159 | an edit streamed in after boot outlives every such run, and then the page's own refetch if and only if that brings no template or the same one |
| RegistryEffects.FetchingExactly | LP/assets/9367c065-0eb8-43d7-96aa-cd5bd931f686.js:1300-1304 | the first demand fetches and marks, a mark alone only marks |
| RegistryEffects.MarkupExactly | LP/assets/9367c065-0eb8-43d7-96aa-cd5bd931f686.js:1340-1349 | new markup raises the version once and replaces the template only where it compiles |
| RegistryEffects.StreamedMarkupExactly | LP/assets/9367c065-0eb8-43d7-96aa-cd5bd931f686.js:1374-1394 | streamed markup: flag, mark, class of the document and markup in two versions, nothing else |
| RegistryEffects.StreamedScriptExactly | LP/assets/9367c065-0eb8-43d7-96aa-cd5bd931f686.js:1374-1396 | a script that goes on streaming is flagged and marked but not evaluated |
| RegistryEffects.LastScriptExactly | LP/assets/9367c065-0eb8-43d7-96aa-cd5bd931f686.js:1394-1396 | its last part is flagged off and then evaluated |
| RegistryEffects.PropertiesExactly | LP/assets/9367c065-0eb8-43d7-96aa-cd5bd931f686.js:1389-1408 | what streamed declarations, property overrides and other parts change |
| RegistryEffects.DeclarationsExactly | LP/assets/9367c065-0eb8-43d7-96aa-cd5bd931f686.js:1409-1415 | parsed declarations replace only what they bring and raise no version |
| RegistryEffects.EvaluationExactly | LP/assets/9367c065-0eb8-43d7-96aa-cd5bd931f686.js:1350-1373 | an evaluation is numbered before it runs; its verdict counts unless the number moved on; one that is no class leaves the class and reports why |
| RegistryEffects.AdoptionIsUpdates | LP/assets/9367c065-0eb8-43d7-96aa-cd5bd931f686.js:1409-1416 | adopting a page is its declarations, then its markup and its script where it has them |
| RegistryEffects.CompletionIsUpdates | LP/assets/9367c065-0eb8-43d7-96aa-cd5bd931f686.js:1328-1331 | a completed fetch is the same, with markup only where there is no source and script only where there is no class |
| Coreference.WordsOfJoin | src/raku_rag/core/coreference.py:80-81 | splitting inverts joining words by single spaces |
| Coreference.MarkerIsReferential | src/raku_rag/core/coreference.py:84-99 | a short single-spaced text that starts with a marker and names no identifier is a referential follow-up |
| Coreference.SpelledExtends | src/raku_rag/core/coreference.py:157-166 | what a query spells, every extension of it spells |
| Coreference.CarriedIsSpelled | src/raku_rag/core/coreference.py:157-169 | a carried case-folded term is spelled by the rewritten query |
| Coreference.UnfoldedNeverSpelled | src/raku_rag/core/coreference.py:157-166 | no query ever spells a term that is not case-folded |
| Coreference.SpelledAfterwardsExactly | src/raku_rag/core/coreference.py:147-169 | after the rewrite a signal term occurs, literally or without separators, if and only if it is case-folded |
| Coreference.UnchangedExactly | src/raku_rag/core/coreference.py:147-169 | the query stays a prefix, and is unchanged if and only if it spells every signal term |
| Coreference.IdempotentExactly | src/raku_rag/core/coreference.py:147-169 | rewriting is idempotent if and only if every signal term is case-folded |
| Coreference.StandaloneIdempotentExactly | src/raku_rag/core/coreference.py:131-169 | for a fixed previous turn: if and only if its question names an identifier or all its document ids are case-folded |
| Coreference.PlannedTermsAreFolded | src/raku_rag/core/coreference.py:139-144 | identifiers and key terms of a question are always case-folded |
| Coreference.UppercaseIdIsAppendedAgain | src/raku_rag/core/coreference.py:147-169 | an upper-case document id is appended once more by a second rewrite |
| Followups.ReferentialExactly | src/raku_rag/core/coreference.py:84-99 | a referential follow-up has a previous question, at most 40 characters once single-spaced, one of 13 markers and no identifier; two of the 15 markers add nothing |
| Followups.WordsSplit | src/raku_rag/core/coreference.py:80-81 | splitting goes at every space |
| Followups.SignalExactly | src/raku_rag/core/coreference.py:131-144 | what is carried over: identifiers, else cited documents, else the first four terms |
| Followups.TermIsAppended | src/raku_rag/core/coreference.py:147-169 | terms are appended one by one, each after a space, unless the original query spells it |
| Followups.SpelledExactly | src/raku_rag/core/coreference.py:157-166 | a term is spelled where it stands in the query, or does without dashes and underscores in both |
| ResidualTopic.ResidualTopicLoop | src/raku_rag/core/coreference.py:102-124 | the loop terminates and computes the rounds until nothing changes |
| ResidualTopic.SettleIsOnePass | src/raku_rag/core/coreference.py:118-124 | the alternating rounds end where one pass over both ends does |
| ResidualTopic.ResidualTopicEnds | src/raku_rag/core/coreference.py:102-124 | the result never ends in a particle, punctuation or space, and is empty if and only if nothing else was left |
| Followups.RemoveWordExactly | src/raku_rag/core/coreference.py:113-117 | the first occurrence of a word goes and the rest is searched behind it |
| Followups.CleanedExactly | src/raku_rag/core/coreference.py:113-117 | markers go before fillers, longer markers before those inside them |
| Followups.ResidualExactly | src/raku_rag/core/coreference.py:118-128 | the residual topic is the slice between the particles at the front and the punctuation and particles at the end, stripped; two characters make an own topic |
| FollowupHistory.FollowupFromHistoryLoop | src/raku_rag/core/coreference.py:172-215 | the reverse scan with its early exits computes the resolution against the last usable turn |
| FollowupHistory.LastAskedAt | src/raku_rag/core/coreference.py:190-203 | a turn is the anchor when it asks something and no later turn does |
| FollowupHistory.NoneAsked | src/raku_rag/core/coreference.py:204-205 | there is no anchor if and only if no recent turn asks anything |
| FollowupHistory.FollowupCarriesIntent | src/raku_rag/core/coreference.py:185-215 | the raw query is returned alone or as intent of a proper extension; it is rewritten if and only if it is a referential follow-up that misses a signal term |
| FollowupHistory.OnlyRecentTurnsMatter | src/raku_rag/core/coreference.py:190-193 | turns before the last five usable ones change nothing |
| FollowupHistory.BlankTurnIsSkipped | src/raku_rag/core/coreference.py:190-196 | a blank turn after the anchor changes nothing within reach |
| Followups.AnchorExactly | src/raku_rag/core/coreference.py:194-203 | what a turn is remembered for: its stripped question and its stripped, non-blank document ids |
| Followups.HistoryExactly | src/raku_rag/core/coreference.py:172-215 | the anchor is the last turn that asks something, within reach if at most four usable turns are newer; then the query is rewritten against it or returned as it is |
| Envelope.MatchesSplit | src/raku_rag/chatbot/envelope.py:60-61 | the numeric matches of a text split at a separator character |
| Envelope.AssembledTokens | src/raku_rag/chatbot/envelope.py:91-92 | the numeric tokens of lead, answer and next step are the union of theirs |
| Envelope.NumericGuardExactly | src/raku_rag/chatbot/envelope.py:118-128 | the numeric guard passes if and only if the two lines bring no number the answer and citations lack |
| Envelope.GroundedExactly | src/raku_rag/chatbot/envelope.py:118-128 | the whole guard passes if and only if they bring no such number and no such identifier |
| Envelope.GroundedAddsNothing | src/raku_rag/chatbot/envelope.py:118-128 | a grounded text names nothing beyond answer and citations |
| Envelope.ParseEnvelopeResponseLoop | src/raku_rag/chatbot/envelope.py:76-88 | the loop over lines keeps the last value of each prefix |
| Envelope.ParsesExactlyCleanPairs | src/raku_rag/chatbot/envelope.py:76-88 | some response parses to a pair if and only if both are non-empty single lines without blank ends |
| Envelope.ParseOfRender | src/raku_rag/chatbot/envelope.py:76-88 | a rendered clean pair parses back |
| Envelope.TokenOfNumber | src/raku_rag/chatbot/envelope.py:56-92 | the token of a number with a unit is the number and the first six characters of the unit |
| Envelope.ChangedUnitIsRefused | src/raku_rag/chatbot/envelope.py:118-128 | a number with a unit is grounded in another if and only if they are the same |
| EnvelopeSurface.GroundedInFieldsExactly | src/raku_rag/chatbot/envelope.py:95-128 | the guard passes if and only if every number and identifier of the two lines stands in the answer or in a field of a citation |
| EnvelopeSurface.LinesExactly | src/raku_rag/chatbot/envelope.py:80-80 | the response splits at every line end, CR LF being one |
| EnvelopeSurface.ParsesLastLines | src/raku_rag/chatbot/envelope.py:76-88 | the parser returns what the last line of each kind says, and nothing when either says nothing |
| Ladder.LeftAloneCalls | src/raku_rag/chatbot/answer_engine.py:90-100 | on a turn no rewriter changes, the answerer gets exactly the turn's own call, at most once |
| Ladder.RawIntentSurvives | src/raku_rag/chatbot/coreference.py:171-201 | for every stack with one rewriter, or any number over a case-folded signal, at most one call is made, with the query and intent that history resolution yields |
| Ladder.AgreesWithHistory | src/raku_rag/core/coreference.py:172-215 | that call is the endpoint's own pair for the same previous turn; its query extends the raw one, its intent is the raw one |
| Ladder.SparedExactly | src/raku_rag/chatbot/coreference.py:139-184 | the answerer is spared if and only if the follow-up has no topic of its own and the previous turn left something to reuse |
| Ladder.SkeletonCalls | src/raku_rag/chatbot/composition.py:160-185 | envelopes and composition checks never change what is called |
| Ladder.DoubleRewriteLosesIntentExactly | src/raku_rag/chatbot/coreference.py:171-201 | with two rewriters anywhere in a stack the raw intent is lost if and only if the query and its rewriting are both referential, neither is answered from the previous turn, and a signal term is not case-folded |
| Ladder.CapitalIdLosesIntent | src/raku_rag/chatbot/coreference.py:171-201 | a losing turn: a bare marker after a turn that cited one document with a capital letter in its id |
| Ladder.EnvelopKeepsFacts | src/raku_rag/chatbot/envelope.py:151-173 | a rendered envelope holds the answer verbatim and no new number or identifier |
| Ladder.StackAddsNoFacts | src/raku_rag/chatbot/envelope.py:151-173 | for every stack and all language models: same calls, all other fields unchanged, inner text verbatim, no new number or identifier |
| Ladder.BareAnswer | src/raku_rag/chatbot/composition.py:160-185 | without language models the answer is the answerer's own to the one call, or the reused previous one |
| Rungs.ReuseExactly | src/raku_rag/chatbot/coreference.py:139-156 | what a spared turn is answered with, and when there is nothing to reuse |
| Rungs.EnvelopeExactly | src/raku_rag/chatbot/envelope.py:151-173 | an envelope frames the answer below if and only if the reply may frame it, and otherwise passes it on whole |
| Rungs.CheckChangesNothing | src/raku_rag/chatbot/composition.py:160-185 | the check at the top never changes an outcome |
| Rungs.RewriterExactly | src/raku_rag/chatbot/coreference.py:171-201 | the four ways a rewriter treats a turn |
| Rungs.FloorExactly | src/raku_rag/chatbot/answer_engine.py:90-100 | what the answerer is told: the intent only where it takes one and it is not the query |
| Agent.AnswerLoop | src/raku_rag/chatbot/agent.py:203-234 | the bounded loop makes exactly the specified inner calls and returns the last one's answer |
| Agent.RunExactly | src/raku_rag/chatbot/agent.py:203-234 | a sequence of inner calls is admissible, by a description without the loop, if and only if it is the one made |
| Agent.HopsAdmissible | src/raku_rag/chatbot/agent.py:215-234 | from any point on, the rest of the run is admissible |
| Agent.EveryRunIsSafe | src/raku_rag/chatbot/agent.py:203-234 | between 1 and max_hops calls, same principal, collection and context, each query original or not flagged |
| Agent.FlaggedProposalFallsBack | src/raku_rag/chatbot/agent.py:222-228 | a flagged proposal ends the run there, on the inner answer to the original turn |
| Agent.ObservedExactly | src/raku_rag/chatbot/agent.py:203-234 | the decision maker has seen one observation a call, in order, with the status and citations of its answer |
| Agent.ProposalExactly | src/raku_rag/chatbot/agent.py:203-234 | it is asked with the turn and these observations; construction takes one hop or more |
| Percent.UnquoteQuote | src/raku_rag/dagster/partitions.py:37-56 | percent-decoding inverts percent-encoding on all bytes |
| Percent.QuoteInjective | apps/answer-service/server.py:1487-1488 | percent-encoding is injective |
| Percent.QuoteSlashFree | apps/answer-service/server.py:1487-1488 | an encoded text has no slash and is empty only for the empty text |
| Percent.QuoteUnquoteExactly | src/raku_rag/dagster/partitions.py:46-56 | encoding inverts decoding if and only if the text is canonical |
| Percent.EncodesByte | src/raku_rag/dagster/partitions.py:43-43 | letters, digits and four signs stay, every other byte becomes a percent sign and two capital hexadecimal digits |
| Percent.DecodesByte | src/raku_rag/dagster/partitions.py:50-50 | an escape with hexadecimal digits of either case stands for its byte |
| PartitionKeys.ParseBuild | src/raku_rag/dagster/partitions.py:37-56 | a key is built if and only if its four ids are non-empty, and parses back to them |
| PartitionKeys.BuildInjective | src/raku_rag/dagster/partitions.py:37-43 | building is injective |
| PartitionKeys.BuildParseExactly | src/raku_rag/dagster/partitions.py:37-56 | building a parsed key restores the text if and only if its segments are canonical |
| PartitionKeys.KeyTextExactly | src/raku_rag/dagster/partitions.py:37-43 | a key is the four encoded ids with slashes between them |
| PartitionKeys.ParsesExactly | src/raku_rag/dagster/partitions.py:46-56 | a text parses if and only if it is four non-empty segments, and then to what they decode to |
| TenantKeys.SpacesOverlapExactly | apps/answer-service/server.py:1487-1488 | two tenants share a key if and only if their markers agree |
| TenantKeys.ShortTenantsAreDisjoint | apps/answer-service/server.py:1487-1488 | tenants within the limit own disjoint keys |
| TenantKeys.IsolatedExactly | apps/answer-service/server.py:1487-1488 | a tenant shares no key with any other if and only if its encoded id is shorter than 180 |
| TenantKeys.RecordRefParsesExactly | apps/answer-service/server.py:1515-1521 | a record's reference parses to its bucket and key if and only if neither holds a delimiter |
| TenantKeys.AcceptedForOneTenant | apps/answer-service/server.py:1524-1551 | a reference is accepted for at most one tenant within the limit |
| UploadRefs.OwnedExactly | apps/answer-service/server.py:1487-1488 | a key is a tenant's own if and only if it starts with the prefix of the first 180 bytes of its encoded id |
| UploadRefs.ParsesReferenceExactly | apps/answer-service/server.py:1515-1521 | which bucket and key a reference names |
| UploadRefs.VerifiesExactly | apps/answer-service/server.py:1524-1551 | which references pass the check for a tenant |
| UploadRefs.RefusedExactly | apps/answer-service/server.py:1524-1551 | why an S3 reference is refused: the first check that fails |
| Uploads.UploadService.Register | apps/answer-service/server.py:2852-2884 | registration changes the records exactly as its step |
| Uploads.UploadService.Ingest | apps/answer-service/server.py:2885-3000 | the provenance steps of ingest change records and jobs exactly as their step |
| Uploads.RegisterKeepsSound | apps/answer-service/server.py:2852-2884 | registration keeps soundness and overwrites no record |
| Uploads.IngestKeepsSound | apps/answer-service/server.py:2885-3000 | ingest keeps soundness and reopens no record |
| Uploads.JobNamesOwnObject | apps/answer-service/server.py:2911-2946 | a job's reference names an object in its tenant's key space, and the registered one if and only if the registered bucket and key are plain |
| Uploads.RunIsSound | apps/answer-service/server.py:2852-3000 | over every sequence of requests each upload has at most one accepted job, whose reference spells the registered bucket and key and names them exactly when they are plain; consumed records stay |
| Uploads.ReplayIsRefused | apps/answer-service/server.py:2902-2907 | after an accepted ingest no later one of the same upload runs, whatever happens between |
| Uploads.UsableUntilAccepted | apps/answer-service/server.py:2991-3000 | whatever happens after a job of an upload, the same request runs again if and only if no job of that upload was accepted, and then an accepted outcome consumes the record |
| Uploads.IngestRunsExactly | apps/answer-service/server.py:2885-3000 | an ingest runs a job if and only if its upload is open, or its own reference allowed, and the object passes and can be fetched; what it then changes, and that nothing changes otherwise |
| Uploads.RefusalReasons | apps/answer-service/server.py:2895-2946 | which refusal an ingest gets |
| Uploads.RegistersExactly | apps/answer-service/server.py:2852-2884 | when a registration is taken and what it writes |
| Uploads.RunAppends | apps/answer-service/server.py:2852-3000 | a run is its requests one after another |
| Base64Url.Base64UrlEncodeLoop | apps/web/middleware.ts:23-30 | the byte loop computes the encoding |
| Base64Url.DecodeEncode | apps/web/middleware.ts:23-44 | decoding inverts encoding on every byte string (section 5 of RFC 4648, padding restored) |
| Base64Url.EncodeIsUrlChars | apps/web/middleware.ts:23-30 | only URL-safe characters are emitted |
| Base64Url.EncodeHasNoDot | apps/web/middleware.ts:23-30 | the encoding has no dot |
| Base64Url.GroupDigits | apps/web/middleware.ts:23-30 | what three bytes encode to, digit by digit |
| Base64Url.LastGroupDigits | apps/web/middleware.ts:23-30 | what one or two last bytes encode to, without padding |
| Session.ConstantTimeEqual | apps/web/middleware.ts:14-21 | the accumulating loop returns true if and only if the strings are equal |
| Session.TwoParts | apps/web/middleware.ts:78-79 | a text splits into two parts if and only if it is these dot-free parts around one dot |
| Session.AcceptedExactly | apps/web/middleware.ts:72-96 | exactly which cookies are accepted: one dot, behind it the encoded MAC of the payload under the configured secret or the credentials, and an unexpired body of this user |
| Session.IssuedCookieAcceptedExactly | apps/web/middleware.ts:65-96 | an issued cookie is accepted, under the same credentials, at exactly the instants before its expiry |
| Session.ForgedPayloadIsRefused | apps/web/middleware.ts:72-96 | a payload joined to the signature of another is refused where their MACs differ |
| Session.OtherCredentialsAreRefused | apps/web/middleware.ts:46-96 | a cookie issued under other credentials is refused where the MACs differ |
| RankMetrics.RankMetricsLoop | scripts/bench/run_bench.py:66-84 | the loop and sums compute the specified metrics |
| RankMetrics.DcgLoop | scripts/bench/run_bench.py:66-84 | the sum over hits is the DCG |
| RankMetrics.DcgAtMostIdeal | scripts/bench/run_bench.py:66-84 | h hits are worth at most the h top ranks, and as much only when they are the top ranks |
| RankMetrics.NdcgInUnitInterval | scripts/bench/run_bench.py:66-84 | for a ranking without duplicates nDCG@10 is in [0, 1], and 1 if and only if the first min(gold, 10) results are gold |
| RankMetrics.DistinctExactly | scripts/bench/run_bench.py:66-84 | DCG stays within the ideal for every gold set if and only if the top ten are distinct |
| RankMetrics.RepeatedBeatsIdeal | scripts/bench/run_bench.py:66-84 | a repeated result beats the ideal for the gold set of everything listed |
| RankMetrics.RecallAndMrr | scripts/bench/run_bench.py:66-84 | recall@5 is at most recall@10 and 1; MRR is positive if and only if recall@10 is |
| RankMetrics.MetricsExactly | scripts/bench/run_bench.py:66-84 | the four metrics as shares, the inverse of the first gold rank, and the ratio of the discounts of gold ranks to those of the ideal ones |

## Left out

- The stop-word list is a parameter whose words have at most six letters; its 73 words are not written out. One result also takes that no stop word holds a digit (`SynonymRanking.DigitFreeStops`).
- Full Unicode case-folding: folding is per character, and equals lower-casing.
- The order of query terms and identifiers (Python's `sorted`) is any order; `previous_turn_signal` takes the first four of it.
- Identifier regular expressions are arbitrary match lists; numeric tokens are matched character by character.
- Floating-point rounding: scores and metrics are over `real`.
- The order of source terms and of lexicon entries (Python's `sorted`); the lexicon service behind the groups.
- The SQL pool's ordering, limits and fallback around the candidate predicate.
- The `identifier_compacts` loops of the backfill: their sentinel is NULL, which no computed value equals, so they would repeat the token-hash argument without its hard case. Each batch is modelled as any selection, not the one `ORDER BY` makes.
- Backfill.ChunkTable.Run: asks that no row be stuck, because the loop otherwise never ends, as `Backfill.RunsExactlyUntilDone` proves.
- Agent.AnswerLoop: asks for at least one hop, because construction refuses fewer (`Agent.Construct`).
- String comparison of ISO timestamps: expiry is an integer instant; and an upload request's fields are byte strings.
- `urlparse` strips tabs and line breaks and checks IPv6 brackets in the bucket part; the model splits only at delimiters.
- Decoding invalid UTF-8, byte-order marks and unpaired surrogates: codecs work on bytes.
- Session.ConstantTimeEqual: does not model strings of 2^31 code units or more, where JavaScript's 32-bit operators would change the lengths.
- JavaScript property lookup and loose equality are uninterpreted; a getter with effects is not modelled.
- Registry entries are values in a map that the runtime reassigns; the source mutates one object per name, which a fetch completion keeps, and never replaces it, so the two agree. Subscribers are not called: the model raises the version they would be told about. A fetch may complete at any moment, also during an evaluation, which is more than the browser allows.
- Exceptions of the answerer or of the high-risk signal propagate out of a turn and are not modelled.
- The text of the envelope prompt; a language model is any function of query and answer text.
- Metadata lists whose text adds characters to their items' (escapes, `None`, numbers that count as false): `NestingShapes.Rendered` describes lists of plain texts.
- Which agent observation reaches the decision maker in which order of citation ids: the ids are a set.
- The percentile and the round-robin shards of the benchmark: short arithmetic.
- HTTP dispatch, authentication headers, stores, ingestion and retrieval services, the manufacturing gate, UI and infrastructure.
