# Models and proofs for bts_tools

This project models the parts of bts_tools that carry state or arithmetic worth proving: the Base58
codec and its key parser, the masking of keys in log output, the data side of the bundled DataTables
widget, the websocket RPC client, the feed rule interpreter, the debouncing monitor and the fork
plugin on top of it, the block indexer, and the fraction search used for publishing prices.
`dafny verify dfyconfig.toml` checks all of it.

Code that works step by step is an imperative method or a class with the source's fields; its
contract equates the result, or the new state, with a specification function. The promises of the
code are then lemmas about these functions, over every input and every run. Code made of expressions
is a function directly.

| file | models |
|---|---|
| `Numerals`, `Hex`, `Base58`, `Keys` | positional numerals, hex text, the Base58 and Base58Check codecs, the `Base58` object |
| `Sanitizer` | the substitution applied to log output |
| `Lists`, `TableSearch`, `RowRemoval`, `RowOrder`, `TableView`, `Table` | row store, search matching, deletion, sorting, incremental filtering |
| `DrawGuard` | draw numbers of server-side tables |
| `ObjectPath`, `ObjectHeap`, `PathSetter` | reading and writing nested data by path: on values, and in place |
| `Graphene`, `Grants`, `Logins` | request ids, pending requests, futures, reconnects; api grants; the login calls |
| `FeedRules`, `FeedLaws` | feed sets, weighted means, the rule language; what prices and rule texts mean |
| `StableState`, `Fork` | `StableStateMonitor`, and the fork plugin as its client |
| `IndexScan`, `Indexing` | the incremental block indexer: one visit to the chain, and runs of polls |
| `Fraction` | `get_fraction` |

Where the code does not do what its text says, the model follows the code:

- The `Base58` docstring attaches 0x80 to `btc` and 0x00 to `wif`; the code does the opposite
  (`bts_tools/base58.py:51-52` against lines 73-78).
- A byte string of zeros does not survive encoding and decoding, because the digit loops always emit
  one digit; each conversion makes it one longer (`Base58.DecodeInvertsEncode`).
- A WIF key is only partly masked when a match that starts in the letters and digits glued to its front
  runs into it, as after a single `5` (`Sanitizer.OneFiveLeaks`; `Sanitizer.WifIsMasked` says exactly
  when).
- A value that is no array, written to a path with brackets, is not read back
  (`ObjectPath.BracketsReadNothing`; `ObjectPath.GetAfterSet` says exactly when a value is).
- A write can change what another path reads when it creates objects that both share
  (`ObjectPath.WriteMakesOtherRaise`, `ObjectPath.WriteMakesOtherEmpty`; `ObjectPath.SetLeavesOthers`
  says exactly when).
- Continuing a regular expression in the search box can miss rows (`TableView.RegexRefinementMisses`;
  `Table.Table.SearchBox` says exactly when).
- The indexer can step back once: not yet started, polled at head 0, and stopped at once
  (`Indexing.PollNeverGoesBack`).
- A block whose time stamp does not parse is counted by every poll that finds it so
  (`Indexing.BadTimeStampCountsAgain`; `Indexing.RunCounts` says by how much).
- Blocks indexed before the name of their witness was found are not counted, now or later
  (`Indexing.FailedLookupMisses`; `Indexing.RunCountsNamed` says by how much).
- A response whose draw number is a text that is no number switches the protection against late
  responses off (`DrawGuard.NoNumberOpensGuard`).
- A feed rule with an empty asset name is applied to whatever market the first feed is about
  (`FeedRules.EmptyNameBreaksBound`; `FeedRules.ExactPrices` says exactly when that is harmless).
- The comment in the fork plugin speaks of coming online; the test fires on any reported change of the
  online state (`bts_tools/monitoring/fork.py:39-42`).

## Model

| member | source | states |
|---|---|---|
| `Numerals.RecodeInverts` | bts_tools/base58.py:124-157 | converting digits to another base and back, with leading zeros kept apart, is the identity for every numeral with a nonzero digit |
| `Numerals.ExpandOfValue` | bts_tools/base58.py:133-138 | minimal numerals are unique: the digit loop gives back any numeral without a leading zero from its value |
| `Numerals.LeadingDigit` | bts_tools/base58.py:151-156 | a number has k+1 digits led by d exactly when it lies between d·b^k and (d+1)·b^k |
| `Numerals.LeadingDigits` | bts_tools/base58.py:151-156 | a number between v·b^k and (v+1)·b^k begins with the digits of v and has k more |
| `Base58.Base58Encode` | bts_tools/base58.py:142-157 | the two loops compute the specified encoding of every hex text, and fail on every other text |
| `Base58.Base58Decode` | bts_tools/base58.py:124-139 | the two loops compute the specified decoding of every text, unknown characters read as -1 and negative results failing |
| `Base58.DecodeInvertsEncode` | bts_tools/base58.py:124-157 | bytes come back exactly when one of them is nonzero; n zero bytes come back as n+2 |
| `Base58.EncodeInvertsDecode` | bts_tools/base58.py:124-157 | text that decodes comes back exactly when all characters are in the alphabet and one is not `1` |
| `Base58.DecodeFails` | bts_tools/base58.py:125-138 | decoding raises exactly when the first character other than `1` is not in the alphabet or some character is not ASCII |
| `Base58.EncodedLength` | bts_tools/base58.py:142-157 | L bytes with z leading zeros give at least L and at most z + ⌈7(L-z)/5⌉ letters |
| `Base58.CheckDecodeInverts` | bts_tools/base58.py:178-190 | for any digest the payload is recovered, in lower case, exactly when version, payload and check sum are not all zero |
| `Base58.CheckDecodeAccepts` | bts_tools/base58.py:185-190 | the version codec accepts exactly the texts that decode to some body and its digest, and gives the hex text of the body without its first byte |
| `Base58.BtsCheckDecodeAccepts` | bts_tools/base58.py:199-204 | so does the codec without a version byte, which gives the whole body |
| `Base58.BtsCheckDecodeInverts` | bts_tools/base58.py:193-204 | the same for the codec without a version byte |
| `Keys.WifShape` | bts_tools/base58.py:73-74 | the WIF form of any 32-byte key, for any digest, has 51 alphabet letters and starts with `5` and then `H`, `J` or `K`, so it is no hex text |
| `Keys.WifRoundTrip` | bts_tools/base58.py:56-74 | a printed WIF key of any 32-byte key is parsed back to the key, in lower case, for any digest |
| `Keys.PrefixRoundTrip` | bts_tools/base58.py:62-97 | a key printed with a chain prefix and parsed with it is recovered, for any prefix that looks neither like hex nor like WIF |
| `Keys.KnownChains` | bts_tools/base58.py:79-94 | every chain the printer knows has its own prefix, listed here, which looks neither like hex nor like WIF |
| `Keys.ParseOfHex` | bts_tools/base58.py:58-59 | hex text is taken as it is |
| `Keys.ParseOfWif` | bts_tools/base58.py:60-61 | other text that starts with `5` or `6` is taken exactly if it ends in the digest of what is in front |
| `Keys.ParseOfPrefixed` | bts_tools/base58.py:62-65 | any other text is taken exactly if it is the prefix and a code that ends in the other digest of what is in front |
| `Keys.OneCheckSumOnly` | bts_tools/base58.py:60-61 | of two texts with the same body and different check sums at most one is taken for a WIF key |
| `Keys.BtcAddress` | bts_tools/base58.py:77-78 | the `btc` format starts with a `1` and carries version 0 |
| `Keys.EncwifIsPlain` | bts_tools/base58.py:75-76 | the `encwif` format is the key itself in Base58 |
| `Hex.HexInverts` | bts_tools/base58.py:139-143 | writing bytes as hex text and reading them is the identity, and the text is lower-case |
| `Hex.UnhexInverts` | bts_tools/base58.py:186-190 | reading hex text and writing it again lower-cases it |
| `Hex.HexDigits` | bts_tools/base58.py:139-143 | each byte is written as its high and then its low digit, in lower case |
| `Sanitizer.WifIsMasked` | bts_tools/slogging.py:38-39 | for every text in front of a WIF key and every text behind it: the scan comes to the key, which is then replaced as a whole with the texts around it treated on their own, if and only if no match that starts in the letters and digits glued to its front runs into it |
| `Sanitizer.GluedFiveLeaks` | bts_tools/slogging.py:38-39 | otherwise the match takes only the first letters of the key, and the others are shown as they are when the key ends a word |
| `Sanitizer.OneFiveLeaks` | bts_tools/slogging.py:38-39 | a single `5` in front shows the last letter of the key |
| `Sanitizer.LeavesOtherText` | bts_tools/slogging.py:38-39 | text is unchanged if and only if nowhere in it is a `5` followed by 50 letters and digits |
| `TableSearch.LongerMatchesLess` | bts_tools/static/js/jquery.dataTables.1.10RC1.js:2859-2883 | a text matched by a plain search is matched by every search that it continues, smart or not, with any folding of case |
| `TableSearch.WordsAreRuns` | bts_tools/static/js/jquery.dataTables.1.10RC1.js:2873-2877 | the words of a smart search are the longest runs without spaces |
| `TableSearch.PlainSearchMeans` | bts_tools/static/js/jquery.dataTables.1.10RC1.js:2859-2883 | a plain search accepts a text exactly if it occurs in it or, for a smart search, the text is one line and every word occurs in it |
| `TableSearch.SmartSearchSplits` | bts_tools/static/js/jquery.dataTables.1.10RC1.js:2865-2879 | a smart search for two texts accepts what the searches for each accept |
| `TableSearch.RegexMatchesMore` | bts_tools/static/js/jquery.dataTables.1.10RC1.js:2859-2863 | a regular expression and a continuation of it that matches more |
| `TableView.GlobalSearchMeans` | bts_tools/static/js/jquery.dataTables.1.10RC1.js:2903-2958 | a plain smart search accepts a row exactly if every word occurs in some searchable column, without reaching from one into the next, and all of these are one line |
| `TableView.ColumnSearchesMean` | bts_tools/static/js/jquery.dataTables.1.10RC1.js:2777-2794 | each column search means the text of its own column, which is empty if not searchable |
| `TableView.HiddenColumnsDoNotMatter` | bts_tools/static/js/jquery.dataTables.1.10RC1.js:2903-2958 | rows that differ only in columns that are not searchable are accepted alike |
| `TableView.JoinSpaces` | bts_tools/static/js/jquery.dataTables.1.10RC1.js:2952 | the cells stand behind one another with two spaces in between |
| `TableView.StripTakesLineEnds` | bts_tools/static/js/jquery.dataTables.1.10RC1.js:2944-2946 | line ends are taken out of a cell, and nothing else |
| `TableView.RefinementExact` | bts_tools/static/js/jquery.dataTables.1.10RC1.js:2827-2845 | refining the shown rows equals filtering the master list exactly when the old search accepts every row the new one shows |
| `TableView.RegexRefinementMisses` | bts_tools/static/js/jquery.dataTables.1.10RC1.js:2827-2845 | a table of one row that stays hidden when the regular expression shown is continued by an alternative that accepts it |
| `TableView.FilterRefined` | bts_tools/static/js/jquery.dataTables.1.10RC1.js:2828-2845 | which is so for the same search again and for every continued plain search |
| `TableView.RemovalKeepsSync` | bts_tools/static/js/jquery.dataTables.1.10RC1.js:7529-7555 | removing rows keeps shown rows that are in step with the filtered master list in step, among the rows with cached data |
| `TableView.AddKeepsSync` | bts_tools/static/js/jquery.dataTables.1.10RC1.js:944-979 | so does adding a row |
| `TableView.InvalidateKeepsSync` | bts_tools/static/js/jquery.dataTables.1.10RC1.js:1415-1453 | so does changing one |
| `Table.Table.FilterComplete` | bts_tools/static/js/jquery.dataTables.1.10RC1.js:2699-2740 | the display list becomes the rows accepted by the global and all column searches, in order, of the master list or of what was shown; if that was in step with the search before, it is all of the filtered master list if and only if the pass started afresh or the old search accepts every row that the new one shows, which is so for every continued plain search |
| `Table.Table.FilterGlobal` | bts_tools/static/js/jquery.dataTables.1.10RC1.js:2807-2847 | the global search starts from what is shown only when the guard of the code lets it, which is stated on the state before the call |
| `Table.Table.FilterColumn` | bts_tools/static/js/jquery.dataTables.1.10RC1.js:2777-2794 | the loop that splices from the end keeps exactly the rows whose cell is accepted |
| `Table.Table.FilterData` | bts_tools/static/js/jquery.dataTables.1.10RC1.js:2903-2958 | afterwards every row has the filter data of its current cells; reports whether any was missing |
| `Table.Table.AddData` | bts_tools/static/js/jquery.dataTables.1.10RC1.js:944-979 | the row is last in store and master list, not yet shown, and the index lists stay consistent and in step |
| `Table.Table.SetData` | bts_tools/static/js/jquery.dataTables.1.10RC1.js:7597-7614 | new data drops the cached filter data and keeps the lists in step |
| `Table.Table.RemoveRow` | bts_tools/static/js/jquery.dataTables.1.10RC1.js:7532-7550 | one removal: splice, node numbers, both index lists |
| `Table.Table.RemoveRows` | bts_tools/static/js/jquery.dataTables.1.10RC1.js:7529-7555 | any duplicate-free list of rows, in any order, removes exactly those rows; every node knows its position, the master list stays a permutation, the lists stay in step |
| `Table.Table.SearchBox` | bts_tools/static/js/jquery.dataTables.1.10RC1.js:2641-2659 | typing anything shows exactly the filtered rows if and only if the pass started afresh or the old search accepts all of them |
| `Table.Table.SearchAll` | bts_tools/static/js/jquery.dataTables.1.10RC1.js:8370-8381 | any search through the API shows exactly the filtered rows, whatever was shown before |
| `Table.Table.SearchColumn` | bts_tools/static/js/jquery.dataTables.1.10RC1.js:8389-8410 | so does any column search |
| `Table.Table.ReDraw` | bts_tools/static/js/jquery.dataTables.1.10RC1.js:1982-2006 | a full redraw leaves the sorted master list and exactly its filtered rows, whatever was shown before; with sorting or filtering switched off the parts that remain |
| `Table.Table.SortMaster` | bts_tools/static/js/jquery.dataTables.1.10RC1.js:4331-4454 | the master list is sorted in place and stays a permutation of the rows |
| `Table.Table.Draw` | bts_tools/static/js/jquery.dataTables.1.10RC1.js:1897-1931 | drawn rows have nodes that know their position; what is shown does not change |
| `RowRemoval.DeleteIndex` | bts_tools/static/js/jquery.dataTables.1.10RC1.js:1380-1400 | the renumbering loop, with and without splice |
| `RowRemoval.RemovalIsExact` | bts_tools/static/js/jquery.dataTables.1.10RC1.js:7529-7555 | the walk over a list that is renumbered under it equals the closed form: the other rows in order, both index lists naming the survivors in the same order by their new numbers |
| `RowRemoval.SurvivorIsThere` | bts_tools/static/js/jquery.dataTables.1.10RC1.js:7529-7555 | the new number of a surviving row is where that row is kept |
| `RowOrder.PrecedesIsStrictTotal` | bts_tools/static/js/jquery.dataTables.1.10RC1.js:4395-4420 | for any columns and directions the comparator is a strict total order on the rows |
| `RowOrder.AnySortAgrees` | bts_tools/static/js/jquery.dataTables.1.10RC1.js:4370-4420 | every correct comparison sort gives the same row order |
| `RowOrder.SortIsStable` | bts_tools/static/js/jquery.dataTables.1.10RC1.js:4370-4420 | rows with equal keys keep their order, in both directions |
| `RowOrder.ColumnsSorted` | bts_tools/static/js/jquery.dataTables.1.10RC1.js:4404-4414 | among rows with equal keys in the first k sort columns, the next column is in its direction |
| `RowOrder.PrecedesIsLexicographic` | bts_tools/static/js/jquery.dataTables.1.10RC1.js:4395-4420 | the comparator is the lexicographic order by columns in their directions, then by old position |
| `TableView.SortedByData` | bts_tools/static/js/jquery.dataTables.1.10RC1.js:4366-4420 | the same for the sort keys of the rows' data |
| `DrawGuard.StaleIsIgnored` | bts_tools/static/js/jquery.dataTables.1.10RC1.js:2556-2566 | once request k went out, a response with a lower number changes nothing, however late, be it a number or a text; one without a number, or with the number 0, is taken |
| `DrawGuard.TakenSetsDraw` | bts_tools/static/js/jquery.dataTables.1.10RC1.js:2556-2562 | a response that is taken sets the draw number to its own |
| `DrawGuard.DrawNeverDecreases` | bts_tools/static/js/jquery.dataTables.1.10RC1.js:2410-2426 | over any run in which draw numbers are numbers, the draw number never goes back |
| `DrawGuard.NoNumberOpensGuard` | bts_tools/static/js/jquery.dataTables.1.10RC1.js:2556-2566 | after a response with a text that is no number for its draw number, the next response is taken however old, whatever draws are started in between |
| `DrawGuard.ShowsLatest` | bts_tools/static/js/jquery.dataTables.1.10RC1.js:2548-2587 | when numbers are echoed, only responses to the latest draw are taken and the rows shown are those of the last one taken |
| `DrawGuard.ServerTable.AjaxUpdateDraw` | bts_tools/static/js/jquery.dataTables.1.10RC1.js:2548-2587 | the guarded refill of the table |
| `ObjectPath.GetAfterSet` | bts_tools/static/js/jquery.dataTables.1.10RC1.js:1122-1345 | a value written to a path is read back exactly when it has plain arrays where the path has brackets, nested as deep; brackets without a name read the entries of the data itself, which no write changes |
| `ObjectPath.BracketsReadNothing` | bts_tools/static/js/jquery.dataTables.1.10RC1.js:1122-1345 | a number written to `a[]` that reads back as an empty array |
| `ObjectPath.SetAfterSet` | bts_tools/static/js/jquery.dataTables.1.10RC1.js:1271-1332 | writing twice is writing the second value, errors included |
| `ObjectPath.PutSucceeds` | bts_tools/static/js/jquery.dataTables.1.10RC1.js:1271-1332 | a write raises exactly unless data and value have what the path needs: fields all the way, and arrays or at least something at brackets |
| `ObjectPath.DottedWriteSucceeds` | bts_tools/static/js/jquery.dataTables.1.10RC1.js:1311-1330 | without brackets on the way a write succeeds exactly if there are objects or arrays on the way as far as there is anything |
| `ObjectPath.NamesReadProperties` | bts_tools/static/js/jquery.dataTables.1.10RC1.js:1213-1233 | reading through names alone reads the property behind them, undefined behind missing data; it raises for undefined data, and for null data exactly if there is a single name |
| `ObjectPath.EntriesWritten` | bts_tools/static/js/jquery.dataTables.1.10RC1.js:1295-1299 | an array is written entry by entry, in order |
| `ObjectPath.EntriesRead` | bts_tools/static/js/jquery.dataTables.1.10RC1.js:1181-1183 | and read so |
| `ObjectPath.SetLeavesOthers` | bts_tools/static/js/jquery.dataTables.1.10RC1.js:1276-1331 | a write leaves a path that parts from it unchanged if and only if nothing the two share was missing where that matters: for paths that part in a name, and for paths that read the entries of what the write goes on through |
| `ObjectPath.OthersPart` | bts_tools/static/js/jquery.dataTables.1.10RC1.js:1276-1331 | for a write to a dotted path every other path either lies along it or parts from it in one of these ways |
| `ObjectPath.WriteMakesOtherRaise` | bts_tools/static/js/jquery.dataTables.1.10RC1.js:1276-1331 | a write after which another path raises that read as undefined before |
| `ObjectPath.WriteMakesOtherEmpty` | bts_tools/static/js/jquery.dataTables.1.10RC1.js:1276-1331 | a write after which another path reads an empty array where it raised before |
| `PathSetter.SetData` | bts_tools/static/js/jquery.dataTables.1.10RC1.js:1271-1332 | the loop that walks down the path, creates missing objects and assigns in place raises exactly when `ObjectPath.Put` does, and otherwise leaves the memory holding its result |
| `PathSetter.Descend` | bts_tools/static/js/jquery.dataTables.1.10RC1.js:1313-1317 | the next object on the way, created when it is null or undefined |
| `PathSetter.SetArray` | bts_tools/static/js/jquery.dataTables.1.10RC1.js:1282-1303 | a new array with one new object for each entry of the value, filled by the same setter |
| `ObjectHeap.FieldAssigned` | bts_tools/static/js/jquery.dataTables.1.10RC1.js:1313-1330 | assigning a property of one object changes the nested data around it at that place only |
| `Graphene.Endpoint.Rpc` | bts_tools/graphene.py:131-147 | a call takes the next id; only with an api id it is recorded and sent |
| `Graphene.Endpoint.Connect` | bts_tools/graphene.py:149-158 | the login calls made on connecting |
| `Graphene.Endpoint.Message` | bts_tools/graphene.py:160-194 | a reply is taken off the pending requests, resolves a future or fills the cache, and may grant an api |
| `Graphene.Endpoint.Ask` | bts_tools/graphene.py:86-101 | a call from another thread, with its two ways to fail |
| `Graphene.Endpoint.MakeProtocol` | bts_tools/graphene.py:115-128 | a new connection starts with no pending requests and only the preset api ids |
| `Graphene.RunIsSafe` | bts_tools/graphene.py:114-236 | in every run of sends, replies and reconnects: ids are sent and answered at most once per connection, pending requests are exactly the unanswered ones, futures hold exactly the answers to their own requests, and every api id in use was preset or granted on this connection |
| `Graphene.ReplyReachesItsRequest` | bts_tools/graphene.py:160-175 | a reply resolves only the future or cache entry of the request that was sent under its id, which had no value yet; any other reply changes nothing |
| `Graphene.FuturesAreResolvedOnce` | bts_tools/graphene.py:172-173 | a future keeps its first value through the rest of any run |
| `Graphene.CallsAreEntitled` | bts_tools/graphene.py:131-147 | every call but a login call carries the preset database id or an id granted earlier on the same connection |
| `Graphene.AnsweredCallResolves` | bts_tools/graphene.py:86-101 | whatever is sent or answered in between, the future of a call has no value before the reply to its id and the result of that reply after it |
| `Grants.GrantedApiIsUsed` | bts_tools/graphene.py:177-191 | after a login call was answered with an id, the next call to the api it asked for goes out with that id, whatever happens in between short of a new connection or another grant of it |
| `Grants.CallsUseLatestGrant` | bts_tools/graphene.py:131-191 | in every run every call carries the id of the latest grant of its api that its connection had seen, or else the preset one |
| `Logins.ConnectSends` | bts_tools/graphene.py:149-158 | the calls that every new connection begins with, by name and id |
| `Logins.LoginOpensApi` | bts_tools/graphene.py:149-191 | from a new connection on: the answer to its second call opens the network api, with Steem those to its second, third and fourth call the database, network and broadcast api; the next call is sent with the id in the answer, whatever else happens short of a new connection or another such answer |
| `Logins.DroppedCallUsesId` | bts_tools/graphene.py:131-147 | a call that is not sent still uses up a request id |
| `Grants.CacheIsOfThisConnection` | bts_tools/graphene.py:115-175 | in every run the cache holds only answers of the current connection to calls nobody waited for |
| `Grants.LostIsSilent` | bts_tools/graphene.py:205-236 | after a connection is lost nothing is sent or taken until there is a new one |
| `FeedRules.Interpreter.ApplyRules` | bts_tools/feeds.py:144-208 | the loops over rules and assets, with exceptions caught per rule |
| `FeedRules.Interpreter.ExecuteRule` | bts_tools/feeds.py:150-198 | one rule, a loop running its body for each asset until one raises |
| `FeedRules.PricesStayWithin` | bts_tools/feeds.py:144-208 | when fetched prices are within a factor 1+ε of what the assets are worth, and the rules that added a price respect that worth, every price is within (1+ε)^k after any program, k being the number of fetched prices it was built from |
| `FeedRules.SoundProgramsStayWithin` | bts_tools/feeds.py:144-208 | which holds for every program that names its markets and copies only between markets worth the same, whichever rules fail |
| `FeedRules.ExactPrices` | bts_tools/feeds.py:144-208 | with exact fetched prices all prices are exact if and only if the rules that added one respect what the assets are worth, with empty names read as those of the first feed |
| `FeedRules.RuleIsExact` | bts_tools/feeds.py:150-188 | the same for a single rule |
| `FeedRules.MeanWithin` | bts_tools/feed_providers/__init__.py:302-345 | the weighted mean of a market, by volume or plain, is within the bound of its worst feed |
| `FeedLaws.PriceBalances` | bts_tools/feed_providers/__init__.py:302-345 | the price of a market is where its feeds balance, weighed by volume if all have one and alike otherwise, and nowhere else; there is none without feeds or when several volumes add up to zero |
| `FeedLaws.EmptyNamesMean` | bts_tools/feed_providers/__init__.py:287-290 | an empty name is read as that of the first feed |
| `FeedRules.ApplyAppends` | bts_tools/feeds.py:200-208 | the feeds and publish list from before are a prefix of those after, also when rules fail, and what is added has no volume |
| `FeedRules.ApplySplits` | bts_tools/feeds.py:200-206 | a failing rule does not stop the later ones, which go on from what it left |
| `FeedRules.LoopAborts` | bts_tools/feeds.py:177-182 | a loop stops at the first asset that raises; what the assets before it added stays |
| `FeedLaws.LoopIsSequence` | bts_tools/feeds.py:177-182 | a loop that does not raise is its body for one asset after the other, with the patterns filled in |
| `FeedLaws.UnknownRuleRaises` | bts_tools/feeds.py:197-198 | a rule with an unknown name raises and changes nothing, and a loop over it ends at its first asset |
| `FeedLaws.MktMeans` | bts_tools/feeds.py:147-148 | a market is two names with exactly one slash between them |
| `FeedLaws.PublishAppends` | bts_tools/feeds.py:193-196 | publishing appends the market of the text at the end and does nothing else |
| `FeedLaws.PublishNothing` | bts_tools/feeds.py:193-196 | a text that is no market is not published |
| `FeedRules.EmptyNameBreaksBound` | bts_tools/feed_providers/__init__.py:287-289 | a single exact feed and a rule with an empty name that break the bound |
| `StableState.StableStateMonitor.Push` | bts_tools/monitor.py:49-53 | the deque of n+1 states and the remembered value follow the whole history |
| `StableState.StableStateMonitor.StableNow` | bts_tools/monitor.py:55-62 | the value kept in the window is the one the last n pushes of the history agree on |
| `StableState.StableStateMonitor.JustChanged` | bts_tools/monitor.py:64-68 | true exactly when the history reports a change |
| `StableState.LastStableIsMostRecent` | bts_tools/monitor.py:49-53 | the remembered value is that of the longest stable proper prefix |
| `StableState.FiresWhen` | bts_tools/monitor.py:64-68 | a change is reported exactly when the last n pushes agree and the latest stable value before was another |
| `StableState.ConsecutiveFirings` | bts_tools/monitor.py:49-68 | two consecutive reports carry different values and are at least n pushes apart |
| `StableState.NoMissedChange` | bts_tools/monitor.py:49-68 | between prefixes stable at different values there is a report |
| `Fork.ForkMonitor.Monitor` | bts_tools/monitoring/fork.py:36-54 | one poll: the forced pushes, the push of the state, the notification |
| `Fork.FirstNoticeIsSynced` | bts_tools/monitoring/fork.py:36-54 | after a came-online poll the first notification is that the node is synced, at the first three synced polls in a row counting that poll, whatever the history |
| `Fork.FirstNoticeIsNotInSync` | bts_tools/monitoring/fork.py:50-54 | after three synced polls the first notification is the alert, at the first three polls in a row out of sync |
| `Indexing.Indexer.constructor` | bts_tools/monitoring/indexing.py:29-46 | defaults are added for monitored witnesses to the totals of produced and missed blocks and to the streaks, stored numbers are kept |
| `Indexing.Indexer.LookUpNames` | bts_tools/monitoring/indexing.py:59-65 | the witnesses are looked up one by one as long as no name is known; failed look-ups are skipped |
| `Indexing.NamesAreFound` | bts_tools/monitoring/indexing.py:59-65 | after the first look-ups an id stands for a witness exactly if the last look-up that found it, before one raised, was for this witness |
| `Indexing.BlockCountsForItsWitness` | bts_tools/monitoring/indexing.py:59-103 | once all ids were found, the next block with the id of a witness and a time stamp counts for this witness and for no other |
| `Indexing.Indexer.GetBlock` | bts_tools/monitoring/indexing.py:88-94 | the retries while a block is missing |
| `Indexing.Indexer.Index` | bts_tools/monitoring/indexing.py:99-106 | counts a block and moves on; a time stamp that does not parse raises after the count and before the move |
| `Indexing.Indexer.Monitor` | bts_tools/monitoring/indexing.py:67-110 | one poll, stopped anywhere by an exception of a look-up, of the head, of a block or of a time stamp |
| `IndexScan.FetchTriesFourTimes` | bts_tools/monitoring/indexing.py:88-94 | a block is missing exactly when four attempts say so, else the first other answer counts |
| `IndexScan.AdvanceGrows` | bts_tools/monitoring/indexing.py:80-106 | a poll that succeeds reaches the head; one that raises stops before the block that raised, and gets past no such block |
| `Indexing.PollNeverGoesBack` | bts_tools/monitoring/indexing.py:71-73 | the last indexed block goes back exactly in one corner: not started, head 0, a poll that raises at the first block |
| `Indexing.RunIsScan` | bts_tools/monitoring/indexing.py:53-110 | after any polls, whatever heads, look-ups and exceptions and whatever a node said about blocks a poll did not get to, the database is that of one scan from the start to the last indexed block, each block named by what was known when it was indexed, with the totals raised for each block that a poll counted without getting past it |
| `Indexing.StartOfIndex` | bts_tools/monitoring/indexing.py:71-73 | the start is where the stored index was, or the block before the head of a poll when that had not started |
| `Indexing.RunIsExactlyScan` | bts_tools/monitoring/indexing.py:53-110 | compared with a scan that names all blocks by all names found, and maybe more: if no block was missed it is exactly that scan if and only if no poll stopped at a time stamp that does not parse; and if no poll did, if and only if no block was missed |
| `Indexing.TotalsAreNamed` | bts_tools/monitoring/indexing.py:59-102 | the totals are those of that scan if and only if each witness was counted again as often as missed |
| `Indexing.RunCountsNamed` | bts_tools/monitoring/indexing.py:59-102 | a total is that of the scan, less the blocks missed, plus those counted again |
| `Indexing.MissedWhileUnknown` | bts_tools/monitoring/indexing.py:59-65 | compared with the names found in the end, only blocks indexed before any was found are missed |
| `Indexing.FailedLookupMisses` | bts_tools/monitoring/indexing.py:59-65 | a run in which a look-up fails at the first poll and one of two blocks is not counted |
| `Indexing.NamesStay` | bts_tools/monitoring/indexing.py:59 | once a name is known, what is known does not change any more |
| `Indexing.PollingDoesNotMatter` | bts_tools/monitoring/indexing.py:53-110 | two ways of polling an index whose start is fixed that get equally far, neither missing a block nor stopped by such a time stamp, leave the same database |
| `Indexing.SeenIsTold` | bts_tools/monitoring/indexing.py:80-106 | for every run of polls there is a chain that the results above apply to |
| `Indexing.BadTimeStampCountsAgain` | bts_tools/monitoring/indexing.py:102-103 | a block whose time stamp fails to parse twice is counted three times |
| `Indexing.RunCounts` | bts_tools/monitoring/indexing.py:99-106 | a total is its stored value plus the number of the witness's blocks in that range, by the names known when they were indexed, each counted once, plus the times one was counted without getting past it; the date is the time stamp of the latest of these blocks |
| `IndexScan.ScanDates` | bts_tools/monitoring/indexing.py:103 | the date of a witness is the time stamp of its highest block in the range, the stored one when it has none |
| `IndexScan.ScanLeavesOthers` | bts_tools/monitoring/indexing.py:100-103 | witnesses that are not monitored keep their entries |
| `Fraction.GetFraction` | bts_tools/feed_publish.py:52-62 | the loop ends for every positive price; both results have at least N digits and no smaller multiplier gives that |
| `Fraction.RelativeError` | bts_tools/feed_publish.py:55-61 | for N of at least 2 the fraction is within a relative error below 10^-(N-1) of price·10^(asset precision - base precision), truncating or rounding |
| `Fraction.TriesAreNear` | bts_tools/feed_publish.py:55-60 | the first numerator is the greatest integer not above price·10^precision, every later one a nearest integer |
| `Fraction.EnoughDigits` | bts_tools/feed_publish.py:58 | a number has at least k digits exactly when it is at least 10^(k-1) |
| `Fraction.RoundIsNearest` | bts_tools/feed_publish.py:60 | rounding gives a nearest integer, the even one of two |

## Left out

- SHA-256 and RIPEMD-160 are arbitrary functions with four bytes of output; the elliptic-curve code of `bts_tools/privatekey.py` is not part of this model.
- Keys of other shapes: text printed with the `btc` format is not accepted by the constructor, and `encwif` has no check sum.
- ObjectPath.GetAfterSet: escaped periods, function calls, join strings between the brackets, and properties that strings and arrays have by nature (the length, entries by number) are not modelled, nor is an object iterated that has a property called `length` of its own; paths are sequences of segments.
- PathSetter.SetData: data in which an object is reached in two ways, and a value that shares objects with the data, are not covered; nor is what a write that raises leaves behind.
- Table.Table.RemoveRows: one table per call, and indexes that exist; the paging correction afterwards is not modelled.
- Table.Table.SortMaster: the built-in sort is a stand-in function, which `RowOrder.AnySortAgrees` makes irrelevant; sort keys are totally ordered numbers, computed from the current data instead of cached. Sort types with an order of their own instead of a formatter are plug-ins and not modelled.
- Table.Table.FilterComplete: custom filter functions are not modelled; a search with a double quote, or a regular expression, tests a text in an arbitrary way; the text of a cell after type formatting and entity decoding is an arbitrary function of the data.
- Table.Table.Draw: a draw that a callback cancels, striping, callbacks and everything else that only touches the page.
- DOM construction, scrolling, widths, header layout, state saving, pagination buttons, plug-in registration.
- Graphene.Endpoint.Ask: the ten second timeout only makes the caller give up; the future stays pending as in the model. Two threads interleave only between steps, and a loop or protocol replaced between the two look-ups is not modelled.
- Replies without an id, and arguments that are dictionaries.
- FeedRules.PricesStayWithin: prices are real numbers, patterns are filled by an arbitrary function, rules have the right number of arguments; the tolerance warning of the mean only logs.
- Fetching of feeds, price history, publishing, and the caching decorators of the providers.
- Fraction.GetFraction: prices are positive real numbers; for a price of zero the loop of the source does not end.
- Indexing.RunIsScan: block 0 does not exist.
- Indexing.RunIsExactlyScan: the ids of witnesses are no names of monitored witnesses.
- DrawGuard.StaleIsIgnored: draw numbers are whole.
- StableState.StableStateMonitor.Push: states are never None and the window is at least one long.
- Fork.ForkMonitor.Monitor: a poll at which an earlier plugin raised does not reach it.
- Logging, mail, views, deployment and process control.
