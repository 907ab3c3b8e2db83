# Income-statement reshaping of Finance.py, in Dafny

Finance.py fetches quarterly income statements for a list of tickers,
flattens each one into keys of the form `TICKER_REF_PERIOD_ITEM`
(for example `AAPL_0_2023-12-31_totalRevenue`), and turns them into a table
with one row per key. This project models that reshaping and proves what it
does:

- `ItemNames` is the camel-case label normaliser `FixItemName`. It cuts every
  identifier into words in front of each upper-case character. It joins the
  words with single spaces and title-cases the result, so `totalRevenue`
  becomes `Total Revenue` and `eps` becomes `Eps`. The method keeps the
  source's nested loops. They are proved to build the list of words `Words`,
  whose join is the reference rendering `Spaced`: the identifier with one
  space in front of every capital.
- `Strings` holds ASCII character classes and Python's `str.split` and
  `str.join` with a one-character separator. Both round trips between them
  are proved.
- `IncomeStatement` covers the rest of `ExtractIncomeStatement` after the
  fetch. The per-ticker flattened statements are merged into one
  insertion-ordered dictionary (`dict_df.update`, later wins; a key keeps the
  place of its first occurrence, so the rows follow the statements' key
  order). Each key is
  split on `'_'` into Ticker, Ref, Period and Item, and Ref is dropped. Rows
  are numbered from 0 and only the Item column goes through `FixItemName`.
  `MergeStatements` and `BuildTable` are the imperative steps. `Tabulate` is
  the table as a function of the merged pairs. `ExtractIncomeStatement` is
  proved equal to it.

The source raises an exception in two cases, and both are modelled as
`Err` results:

- `MissingRefColumn`: no key contains a `'_'`, or there are no keys at all.
  The data frame then has no column 1, and `drop(columns="Ref")` raises.
- `ItemNotText(id)`: some key splits into four or more parts and another into
  fewer. The shorter row's Item cell is None, and `FixItemName` fails on the
  first such row, `id`.

When every key splits into two or three parts, the table has no Item column.
Nothing is normalised and no exception is raised. A key with more than four
parts keeps its extra parts as extra columns.

An identifier that starts with a capital gets a label that starts with a
space (`Ebit` becomes ` Ebit`). This is because the list of words starts out
as one empty word, and the model keeps this behaviour.

Characters are ASCII. `isupper` means `'A'..'Z'`. Title-casing upper-cases a
letter that does not follow a letter and lower-cases one that does.

## Model

| member | source | states |
|---|---|---|
| `ItemNames.FixItemName` | Finance.py:19-37 | one label per identifier, in the same order; label k is `Label(items[k])`, the title-cased spaced identifier |
| `ItemNames.AppendChar` | Finance.py:28-32 | one inner-loop step: a new empty word at an upper-case character, then the character appended to the latest word; characterised by `AppendCharCut` |
| `ItemNames.Words` | Finance.py:25-32 | the list `temp` the inner loop builds, never empty; characterised by `WordsCount`, `WordsShape` and `WordsJoin` |
| `ItemNames.WordsJoin` | Finance.py:25-35 | joining the words the inner loop builds with single spaces gives the identifier with one space inserted before every upper-case character |
| `ItemNames.WordsCount` | Finance.py:25-32 | the loop builds one word more than there are upper-case characters |
| `ItemNames.WordsShape` | Finance.py:25-32 | the first word has no upper case; every later word is one upper-case character followed by no other upper case |
| `ItemNames.AppendCharCut` | Finance.py:28-32 | one step of the inner loop keeps the words cut at capitals |
| `ItemNames.SpacedLength` | Finance.py:26-35 | the spaced identifier is one character longer per upper-case character |
| `ItemNames.SpacedAppend` | Finance.py:26-32 | spacing works character by character, so it distributes over concatenation |
| `ItemNames.Title` | Finance.py:35 | `.title()` on ASCII text; no contract of its own, characterised by `TitleCase` |
| `ItemNames.TitleFromCase` | Finance.py:35 | title-casing from a given state keeps the text up to case; a letter is upper case exactly when the character before it is not a letter (for the first character: when the state says no letter came before) |
| `ItemNames.TitleCase` | Finance.py:35 | `title()` keeps length, letters and the text up to case; a letter is upper case exactly when it is not preceded by a letter |
| `ItemNames.TitleFromAppend` | Finance.py:35 | title-casing a concatenation continues from the state the first part leaves |
| `ItemNames.TitleFromLowerRun` | Finance.py:35 | a run of lower-case letters after a letter is unchanged |
| `ItemNames.TitleWord` | Finance.py:35 | a letter followed by lower-case letters is capitalised and the rest kept |
| `ItemNames.Label` | Finance.py:35 | the label of one identifier, defined as `Title(Spaced(s))`; characterised by `LabelLength`, `LabelCapitalised` and the `Label…` examples, and computed by `FixItemName` |
| `ItemNames.LabelLength` | Finance.py:26-35 | a label is as long as its identifier plus the number of upper-case characters |
| `ItemNames.LabelCapitalised` | Finance.py:28-35 | a label is the spaced identifier up to case, and each of its letters is upper case exactly when the character before it is not a letter (or it is first) |
| `ItemNames.NoUpperOneWord` | Finance.py:25-35 | an identifier without upper case is a single word, and its label is its title-cased self |
| `ItemNames.NoUpperSpaced` | Finance.py:26-32 | without upper case no space is inserted |
| `ItemNames.NoUpperNoSpace` | Finance.py:25-35 | an identifier without upper case or spaces gets a label without spaces |
| `ItemNames.LeadingUpperLeadingSpace` | Finance.py:25-35 | an identifier that starts upper case keeps an empty first word, so its label starts with a space |
| `ItemNames.LabelCamelPair` | Finance.py:24-35 | a lower-case word followed by a capitalised word is labelled as both words capitalised with one space between |
| `ItemNames.LabelCapitalWord` | Finance.py:24-35 | a single capitalised word is labelled with a leading space and otherwise unchanged |
| `ItemNames.LabelTotalRevenue` | Finance.py:35 | `totalRevenue` is labelled `Total Revenue` |
| `ItemNames.LabelNetIncome` | Finance.py:35 | `netIncome` is labelled `Net Income` |
| `ItemNames.LabelEps` | Finance.py:35 | `eps` is labelled `Eps` |
| `ItemNames.LabelEbit` | Finance.py:25-35 | `Ebit` is labelled ` Ebit`, with the leading space |
| `Strings.Split` | Finance.py:74 | `key.split('_')` has one more piece than the key has separators, and no piece contains a separator |
| `Strings.Join` | Finance.py:35 | `sep.join(parts)`; no contract of its own, characterised by `JoinSnoc`, `JoinExtendLast`, `SplitJoin` and `JoinSplit` |
| `Strings.SplitJoin` | Finance.py:74 | joining the pieces of a split with `'_'` gives back the key |
| `Strings.JoinSplit` | Finance.py:74 | splitting a join of separator-free pieces gives back the pieces |
| `Strings.SplitPrefix` | Finance.py:74 | a separator-free prefix becomes the head of the first piece |
| `Strings.JoinSnoc` | Finance.py:35 | joining one more piece adds one separator and that piece |
| `Strings.JoinExtendLast` | Finance.py:32-35 | extending the last word extends the joined string by the same text |
| `Strings.CountAbsent` | Finance.py:74 | a string has no separator exactly when it has no occurrence of it |
| `Strings.CountUpperAppend` | Finance.py:28 | upper-case characters are counted additively over concatenation |
| `IncomeStatement.Put` | Finance.py:72 | `d[k] = v` inside `dict.update`: a new key goes last, an existing key keeps its place; characterised through `UpdateWith`, `UpdateLaterWins` and `UpdateKeyOrder` |
| `IncomeStatement.UpdateWith` | Finance.py:72 | `dict.update` keeps a dictionary well formed: keys listed once, exactly the listed keys have values |
| `IncomeStatement.UpdateLaterWins` | Finance.py:72 | after `dict_df.update(flattenJSON)` a key from the statement has its new value and every other key keeps its old one |
| `IncomeStatement.UpdateKeepsOrder` | Finance.py:72 | keys already present keep their order, in front of the new keys |
| `IncomeStatement.FreshMembers` | Finance.py:72 | the keys a dictionary gains from an update are exactly the statement's keys not already present, each listed once |
| `IncomeStatement.FreshOfDistinct` | Finance.py:72 | when the statement's keys are distinct and all new, they are gained in the statement's own order |
| `IncomeStatement.MapOfKeys` | Finance.py:72 | a statement's later-wins mapping has a value for exactly its keys |
| `IncomeStatement.MapOfDistinct` | Finance.py:72 | when a statement's keys are distinct, each pair's value is the one its mapping holds |
| `IncomeStatement.UpdateKeyOrder` | Finance.py:72 | `dict_df.update(flattenJSON)` keeps the old keys in order and appends the statement's new keys in the order they first occur |
| `IncomeStatement.UpdateAppend` | Finance.py:64-72 | updating with two statements in turn equals updating with their concatenation |
| `IncomeStatement.UpdateEmpty` | Finance.py:63-72 | updating `{}` lists the keys by first occurrence and holds their later-wins mapping |
| `IncomeStatement.MergeAll` | Finance.py:65-72 | the merged dictionary is well formed |
| `IncomeStatement.MergeAllKeys` | Finance.py:65-72 | a key is in `dict_df` exactly when some ticker's flattened statement has it |
| `IncomeStatement.MergeAllLaterWins` | Finance.py:65-72 | a key holds the value from the last ticker's statement that has it |
| `IncomeStatement.MergeAllConcat` | Finance.py:63-72 | merging the tickers' statements equals updating `{}` with all of them one after the other |
| `IncomeStatement.MergeAllOrder` | Finance.py:63-74 | `dict_df.keys()` lists every key once, in order of first occurrence across the tickers' statements, and `dict_df` is the later-wins mapping of all their pairs |
| `IncomeStatement.MergeAllDistinct` | Finance.py:63-75 | when no key repeats within or across statements, the merged (key, value) pairs are the statements' pairs concatenated in ticker order |
| `IncomeStatement.MergeStatements` | Finance.py:65-72 | the merge loop computes `MergeAll` of the flattened statements |
| `IncomeStatement.Items` | Finance.py:74-75 | `dict_df.keys()` paired with `dict_df.values()` in key order; no contract of its own, characterised by `MergeAllDistinct` |
| `IncomeStatement.Parts` | Finance.py:74 | `key.split('_')` for every key, in key order; no contract of its own, characterised by `TabulateRows` and `TabulateRowKey` |
| `IncomeStatement.MaxLen` | Finance.py:76 | the data frame has as many columns as the longest split key |
| `IncomeStatement.FirstShort` | Finance.py:83 | the first key with fewer than four parts, or none |
| `IncomeStatement.MakeRow` | Finance.py:74-83 | one row: Ticker = part 0, Period = part 2 where present, Item = the label of part 3 where present, the parts after the fourth, the value; characterised by `TabulateRowKey` and `TabulateShortRowKey` |
| `IncomeStatement.Tabulate` | Finance.py:74-83 | the table or the raised error, as a function of the merged pairs; characterised by `TabulateRows`, `TabulateRowKey`, `TabulateShortRowKey`, `TabulateMissingRef`, `TabulateItemNotText` and `ItemNotTextRow`, and computed by `BuildTable` |
| `IncomeStatement.TabulateMissingRef` | Finance.py:76-80 | dropping Ref fails exactly when no key contains a `'_'`, including when there are no keys |
| `IncomeStatement.TabulateItemNotText` | Finance.py:76-83 | normalising fails exactly when some key has four or more parts and another has fewer |
| `IncomeStatement.ItemNotTextRow` | Finance.py:76-83 | the failing row is the first key with fewer than four parts |
| `IncomeStatement.TabulateRows` | Finance.py:74-83 | one row per key, numbered 0..n-1 in key order; Ticker is part 0, Period is part 2 where the key has one, and Value is that key's value; every row has an Item or none has |
| `IncomeStatement.TabulateRowKey` | Finance.py:74-83 | a row has Period = part 2 and Item = the label of part 3; its Ticker, Period, extra parts, the dropped Ref and the raw Item rejoined with `'_'` give back the key |
| `IncomeStatement.TabulateShortRowKey` | Finance.py:74-83 | a row without an Item comes from a key of at most three parts, has no extra parts, has Period = part 2 where there is one, and its Ticker, the dropped Ref and its Period rejoined with `'_'` give back the key |
| `IncomeStatement.TabulateOneKey` | Finance.py:74-83 | a single four-part key becomes a single row of Ticker, Period, the label of Item and the value, in a four-column table |
| `IncomeStatement.TabulateAaplRevenue` | Finance.py:74-83 | `AAPL_0_2023-12-31_totalRevenue` with value 100 becomes the row (0, AAPL, 2023-12-31, Total Revenue, 100) |
| `IncomeStatement.BuildTable` | Finance.py:74-84 | the data-frame steps, with `FixItemName` on the Item column, compute `Tabulate` of the merged pairs |
| `IncomeStatement.ExtractIncomeStatement` | Finance.py:62-84 | the whole reshaping is `Tabulate` of the merged flattened statements, in key order |

## Left out

- The network fetches through YahooFinancials (Finance.py:46-48, 67-69) are
  remote I/O. The model starts from their flattened output.
- `flatten_json.flatten` (Finance.py:71) is a foreign library whose traversal
  order is not visible here. Its output, the list of (key, value) pairs, is
  the model's input. A missing statement (`get` returning None) is not
  modelled.
- `CAGR` (Finance.py:8-16) uses floating-point `pct_change`, `cumprod` and
  fractional powers. It is not modelled. Its line 11 builds a filtered frame
  and discards it, so the `ticker` argument has no effect.
- `ExtractPrices` (Finance.py:40-59) is data-frame I/O plumbing and is not
  modelled. It returns only the last ticker's frame (line 59).
- Date computation and printing (Finance.py:43-44, 87-96) are not modelled.
- Unicode `isupper` and `title` are not modelled. Non-ASCII characters count
  as uncased: they never open a word and are never re-cased.
- pandas mechanics (`DataFrame`, `rename`, `drop`, `apply`, the index) are
  modelled as a record per row and a column count. A row with fewer than
  three parts shows None in Period, as pandas does. pandas also pads extra columns with None;
  instead, each row keeps only its own extra parts. The Period cell is None
  both when the row has fewer than three parts and when the frame has no Period column at all
  (`Table.columns` tells these apart).
- Keys that do not split into exactly four parts are not rejected outright.
  The model follows the code here: longer keys keep their extra parts, and
  shorter keys fail only in the two cases described above.
- The second key part (Ref) is dropped whatever it holds, as the code does.
