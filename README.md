# Snowflake Time Travel query rewriter, in Dafny

This project models the query rewriter of `snowflake_timetravel/utils/timetravel.py`.
The rewriter is meant to read a table as it was at an earlier point in time.
It looks for a match of its FROM pattern: the letters `from` in any case, then
whitespace, then a run of letters, digits, `_` and `.`, then one whitespace
character. After that run it places an `AT (TIMESTAMP => ...)` qualifier. It then
sends the rewritten query to the database, or sends both the rewritten and the
original query and pairs the results.

The pattern knows nothing about SQL, and it needs no word boundary before
`from`:

- It also matches `from` at the end of a longer word, such as the column
  `valid_from`, and inside a quoted string. The qualifier then goes after
  whatever word follows. `MatchInsideColumnName` states one such case.
- A table after `JOIN` or after a comma is not qualified.
- A table name at the very end of the query, or followed directly by a comma or
  a parenthesis, is not qualified at all.

The model has three modules, plus `Wrappers` for `Option` and `Result`:

- `ClauseInjector` (`clause_injector.dfy`) models `modify_from_clause_for_timetravel`.
  That function is one case-insensitive `re.sub` of `from\s+([\w\._]+)\s` with
  `from \1 <clause> `. The model writes it out as a left-to-right scan.
  - `MatchAt` is the match anchored at one position: the keyword, a greedy run of
    whitespace, a greedy run of identifier characters, and one whitespace character.
  - `RewriteFrom` replaces a match where one starts and resumes after it.
    Elsewhere it copies one character.
  - `ModifyFromClause` runs the scan over the whole query.
  - `Spliced` is an independent description of the result: the text between the
    leftmost non-overlapping matches copied, and each match replaced.
- `TimeTravelClause` (`qualifier.dfy`) models the qualifier text that
  `query_at_time` builds for each kind of timestamp, and that `query_at_offset`
  builds for a number of days:
  - `str()` of an integer;
  - the `strftime("%Y-%m-%d %H:%M:%S")` text of a `datetime`;
  - a timestamp text embedded between quotes.
  Each writer has a reader, and the lemmas prove that the reader inverts the writer.
- `TimeTravelQueries` (`orchestrator.dfy`) models `query_at_time`,
  `query_at_offset` and `compare_timetravel`.
  - They run against an `Executor` object that stands for the database behind
    `execute_query`.
  - The executor keeps a log of every query sent, in order.
  - A function gives its answer to the n-th dispatch, so the data may change
    between the two queries of a comparison.

The model follows the code wherever the code and its comments or usage
examples suggest something else:

- The comment at `timetravel.py:23` says JOIN statements are handled. The pattern
  only sees the name right after `from`, so a joined table is not qualified.
  `JoinedTableNotQualified` states this.
- The usage examples of `query_at_time`, `query_at_offset` and `compare_timetravel`
  use the query `SELECT * FROM my_table`. Its table name ends the query, so the
  pattern does not match and the query is sent without any qualifier.
  `TableAtEndNotQualified` states this.
- The substitution does not keep the matched text verbatim. It keeps the
  identifier but writes the keyword in lower case. It also replaces the whitespace
  run after the keyword, and the whitespace character after the identifier, with
  one space each. `QualifiesSingleTable` states this.
- `execute_query` uses a `connection` and a `params` that it is never given. Its
  callers also pass arguments that do not fit its signature or each other's. The
  model follows the evident intent: the database receives the rewritten query, or the
  original query, together with the caller's `params`.

## Model

| member | source | states |
|---|---|---|
| ClauseInjector.RunLengthMaximal | snowflake_timetravel/utils/timetravel.py:24 | the greedy `\s+` and `[\w\._]+` take every character of their class, and the character after the run is not of the class |
| ClauseInjector.RunLengthExact | snowflake_timetravel/utils/timetravel.py:24 | a run of exactly n class characters, ended by the end of the text or by another character, is what the greedy repetition takes |
| ClauseInjector.MatchAt | snowflake_timetravel/utils/timetravel.py:24 | a match found at a position lies entirely inside the query |
| ClauseInjector.MatchAtSound | snowflake_timetravel/utils/timetravel.py:24 | every reported match is `from` in any case, then at least one whitespace, then at least one identifier character, then one whitespace; group 1 is the identifier text |
| ClauseInjector.MatchAtComplete | snowflake_timetravel/utils/timetravel.py:24 | whenever the pattern can match at a position, the scan finds that match with that identifier (the pattern matches in at most one way at a position) |
| ClauseInjector.MatchAtLocal | snowflake_timetravel/utils/timetravel.py:24 | whether and how the pattern matches depends only on the characters the match consumes |
| ClauseInjector.NoMatchWithoutF | snowflake_timetravel/utils/timetravel.py:24 | a match can only start at an `f` or `F` (no word boundary is required before it) |
| ClauseInjector.IdentifierWithoutTrailingSpace | snowflake_timetravel/utils/timetravel.py:24 | for every text and position: when `from`, a whitespace run and an identifier run are followed by the end of the text or by a character that is neither whitespace nor an identifier character, no match starts there |
| ClauseInjector.CopiedUpTo | snowflake_timetravel/utils/timetravel.py:27 | text in which no match starts is copied to the output unchanged |
| ClauseInjector.NoMatchUnchanged | snowflake_timetravel/utils/timetravel.py:24-27 | a query with no match of the FROM pattern is returned exactly as it was |
| ClauseInjector.RewriteAtLeftmostMatch | snowflake_timetravel/utils/timetravel.py:27 | the leftmost match is rewritten first, everything before it is kept, and the scan resumes after it, so overlapping matches are never rewritten |
| ClauseInjector.SingleMatch | snowflake_timetravel/utils/timetravel.py:24-27 | in a query with exactly one match, the match is replaced and all other text is kept |
| ClauseInjector.MatchPositionsLeftToRight | snowflake_timetravel/utils/timetravel.py:27 | the rewritten positions are the leftmost non-overlapping matches: each holds a match, each starts at or after the end of the previous match, and no match starts in the text skipped before, between or after them |
| ClauseInjector.LeftToRightUnique | snowflake_timetravel/utils/timetravel.py:27 | the leftmost non-overlapping matches are determined by the query: any list of them is the list the scan rewrites |
| ClauseInjector.RewriteIsSpliced | snowflake_timetravel/utils/timetravel.py:27 | for any list of leftmost non-overlapping matches, the output is the text before each match copied, each match replaced by `from <ident> <clause> `, and the text after the last match copied |
| ClauseInjector.ModifyFromClauseSplices | snowflake_timetravel/utils/timetravel.py:24-27 | the whole query comes out as the splice of the matches the scan finds, which are the leftmost non-overlapping ones |
| ClauseInjector.ClauseAddedPerMatch | snowflake_timetravel/utils/timetravel.py:27 | with N matches, the output is N clause lengths longer than the output with an empty clause |
| ClauseInjector.FromClauseMatches | snowflake_timetravel/utils/timetravel.py:24 | `from` in any case, any whitespace run, an identifier and one whitespace character form one match whose group 1 is the identifier |
| ClauseInjector.QualifiesSingleTable | snowflake_timetravel/utils/timetravel.py:24-27 | in a query with one match, and no other match before it or in the text after it: keyword in lower case, single spaces around the identifier, clause right after it, all other text unchanged |
| ClauseInjector.OneLetterTable | snowflake_timetravel/utils/timetravel.py:24-27 | `from X ` between text without the letter `f` becomes `from X <clause> `, and the text around it is kept |
| ClauseInjector.TableInMidQuery | snowflake_timetravel/utils/timetravel.py:24-27 | `select * from T where x=1` becomes `select * from T <clause> where x=1` |
| ClauseInjector.JoinedTableNotQualified | snowflake_timetravel/utils/timetravel.py:22-27 | in `select * from A join B on x` only `A` is qualified, although the comment says JOIN statements are handled |
| ClauseInjector.MatchInsideColumnName | snowflake_timetravel/utils/timetravel.py:24-27 | in `select valid_from as x from T` the pattern matches inside the column name, so the clause goes after `as` and the table `T` is not qualified |
| ClauseInjector.TableAtEndNotQualified | snowflake_timetravel/utils/timetravel.py:106-110 | the usage examples' query `SELECT * FROM my_table` is sent unchanged, with no time travel |
| TimeTravelClause.NatToDecimal | snowflake_timetravel/utils/timetravel.py:121 | `str()` of a number is a canonical digit text (no leading zero) that denotes the number |
| TimeTravelClause.DecimalRoundTrip | snowflake_timetravel/utils/timetravel.py:121 | every canonical digit text is the text written for its value |
| TimeTravelClause.ParseNatInverse | snowflake_timetravel/utils/timetravel.py:121 | a digit text reads as n exactly when it is the text written for n |
| TimeTravelClause.ParseIntInverse | snowflake_timetravel/utils/timetravel.py:121 | the same for any integer, with the minus sign of negative numbers |
| TimeTravelClause.DaysAgoRoundTrip | snowflake_timetravel/utils/timetravel.py:121 | the days-ago qualifier holds the number of days in a form that reads back as that number |
| TimeTravelClause.DaysAgoInjective | snowflake_timetravel/utils/timetravel.py:121 | two numbers of days give the same qualifier exactly when they are equal |
| TimeTravelClause.NegativeDaysDoubleMinus | snowflake_timetravel/utils/timetravel.py:121 | a negative number of days puts `--` before its digits |
| TimeTravelClause.ZeroPadded | snowflake_timetravel/utils/timetravel.py:124 | a field written with width w has exactly w digits and denotes the field's value |
| TimeTravelClause.PaddingOnlyAddsZeros | snowflake_timetravel/utils/timetravel.py:124 | a number that already fills the width is written as its plain decimal text |
| TimeTravelClause.TwoDigitField | snowflake_timetravel/utils/timetravel.py:124 | month, day, hour, minute and second below ten get exactly one leading zero; the first digit is `0` exactly when the value is below ten |
| TimeTravelClause.FourDigitYear | snowflake_timetravel/utils/timetravel.py:124 | a year from 1000 to 9999 is written with four digits |
| TimeTravelClause.ReadJoinedFields | snowflake_timetravel/utils/timetravel.py:124 | the dash- and colon-separated fields of the format read back as their values |
| TimeTravelClause.TimestampRoundTrip | snowflake_timetravel/utils/timetravel.py:124 | the formatted text reads back as the same date-time with its microseconds dropped |
| TimeTravelClause.SameTextSameSecond | snowflake_timetravel/utils/timetravel.py:124 | two date-times give the same text exactly when they differ at most in their microseconds |
| TimeTravelClause.QuotedRoundTrip | snowflake_timetravel/utils/timetravel.py:126-128 | a timestamp text is embedded verbatim between the quotes and reads back unchanged |
| TimeTravelClause.FlagTakesDaysAgoBranch | snowflake_timetravel/utils/timetravel.py:119-121 | a `bool` passes the `int` test and puts `True` or `False` where the digits go, a qualifier that reads as no number of days and differs from that of every integer |
| TimeTravelClause.MomentIsQuotedText | snowflake_timetravel/utils/timetravel.py:122-125 | a date-time gives the quoted qualifier of its formatted text |
| TimeTravelClause.MomentClauseIgnoresMicroseconds | snowflake_timetravel/utils/timetravel.py:122-125 | two date-times give the same qualifier exactly when they differ at most in their microseconds |
| TimeTravelClause.FormatHasNoBackslash | snowflake_timetravel/utils/timetravel.py:124 | a formatted date-time holds no backslash |
| TimeTravelClause.BackslashOnlyFromText | snowflake_timetravel/utils/timetravel.py:119-128 | only a timestamp text can bring a backslash into the qualifier |
| TimeTravelQueries.Executor.Execute | snowflake_timetravel/utils/timetravel.py:55-80 | one query is sent with its parameters, appended to the log, and answered as the database answers that dispatch |
| TimeTravelQueries.QueryAtTime | snowflake_timetravel/utils/timetravel.py:119-134 | exactly one dispatch: the query with every match of the FROM pattern qualified for the timestamp, with the caller's params |
| TimeTravelQueries.QueryAtOffset | snowflake_timetravel/utils/timetravel.py:166-172 | exactly one dispatch: the query qualified as of N days ago, with the caller's params |
| TimeTravelQueries.DaysAgoMatchesOffset | snowflake_timetravel/utils/timetravel.py:121 | `query_at_time` with an integer sends the same text as `query_at_offset` with that integer |
| TimeTravelQueries.CompareTimetravel | snowflake_timetravel/utils/timetravel.py:203-209 | the dispatches and result of a comparison are those `Compare` describes, from the log's current length on |
| TimeTravelQueries.CompareDispatchOrder | snowflake_timetravel/utils/timetravel.py:203-207 | the rewritten query goes first and the original second, both with the same params; only one query is sent when the first fails |
| TimeTravelQueries.CompareResultOrder | snowflake_timetravel/utils/timetravel.py:209 | a pair comes back exactly when both queries succeed, current first and historical second |
| TimeTravelQueries.CompareWithoutFromClause | snowflake_timetravel/utils/timetravel.py:24-27 | without a match of the FROM pattern, both dispatches carry the unmodified query |

## Left out

- Characters outside ASCII: `\w`, `\s` and IGNORECASE follow Unicode in Python. The model covers ASCII only: letters, digits, `_` and `.`, and whitespace with codes 9-13, 28-31 and 32. A non-ASCII character is in neither class.
- ModifyFromClause: requires a clause without backslashes. The clause is spliced into the `re.sub` template, which would reinterpret a backslash or raise an error. QueryAtTime passes this requirement on to timestamp texts.
- FormatDateTime: writes a year below 1000 without padding. What `strftime` writes for such a year depends on the Python version and the platform: glibc does not pad `%Y`, while other platforms, and some Python versions, pad it to four digits. TimestampRoundTrip, SameTextSameSecond and MomentClauseIgnoresMicroseconds therefore require a year of at least 1000, where all of them agree.
- DaysAgoClause: builds a clause for every integer. Current CPython raises `ValueError` when formatting an integer of more than 4300 digits, which is the default of `sys.set_int_max_str_digits`. The model does not have that error, so `DaysAgoRoundTrip` and `DaysAgoInjective` hold for integers the source would reject.
- `str()` of objects other than `int`, `bool`, `datetime` and `str` (a `date`, say) is not modelled. The `Text` timestamp stands for whatever text `str()` gives.
- `sql_cell` and the body of `execute_query` are left out. They are calls into the database client and pandas. The `Executor` class stands for them: a log of dispatches, and a function for the answers.
- `db_name`, `data_connection_name` and `cast_decimals` are left out. They only choose the connection and the conversion of its cells.
- Table contents are plain text cells, and parameter values are text. Nothing in the rewriter looks at either.
- CompareTimetravel: has no default arguments. A call that omits `days_ago` and `params` is `CompareTimetravel(ex, query, 7, None)` in the model.
- `visualize_comparison` is left out. It builds a chart with a foreign plotting library.
- Exceptions are modelled as `Failure` replies that the helpers pass back unchanged. Python propagates them instead.
