# A model of the statement builders of `Database`

The `Database` class wraps a MySQL connection and offers four CRUD
operations. Each one builds an SQL text from its arguments by string
concatenation and hands it to the connection's `query` call:

- `create` builds an `INSERT INTO`,
- `read` builds a `SELECT`,
- `update` builds an `UPDATE ... SET`,
- `delete` builds a `DELETE`.

This project models what each operation builds: the statement text, as
a function of the arguments. The `query` call and its result lie outside
the model.

`php.dfy` (module `Php`) holds the PHP semantics the builders rely on:

- values and ordered arrays, with their keys;
- string conversion, as done by `.` and `implode`;
- PHP's boolean conversion;
- the loose comparison `$x == null`. A string equals null only if it is
  `""`. Any other value equals null when it is falsy, so `0`, `false` and
  `[]` count as null, while `"0"` does not.

`database.dfy` (module `Database`) holds the four builders and what is proved
about them:

- `create` and `update` build their text in loops. So they are methods,
  proved equal to the specification functions `InsertStatement` and
  `UpdateStatement`. `create` quotes the string records of a copy of the
  array in place; its loop is modelled over an `array`.
- `read` and `delete` are straight-line code, modelled as the functions
  `BuildSelect` and `BuildDelete`.

The code binds no parameters, checks no identifiers, asks for no
confirmation before an unconditional UPDATE or DELETE, and has no error
type; the model adds none of these.

## Model

| member | source | states |
|---|---|---|
| Php.NullLikeValues | Database.Class.php:123-133 | `$v != null` fails for exactly null, false, 0, a zero float, "" and the empty array; "0" passes |
| Php.List | Database.Class.php:106 | the unkeyed array literal `['name', 'email', 'password']` holds its values under the keys 0, 1, ... in order, and no key twice |
| Php.RenderProperties | Database.Class.php:121-133 | string conversion by `.` gives "" for exactly null, false, "" and a float rendered as ""; an integer gives a decimal that starts with '-' exactly when it is negative |
| Php.JoinSnoc | Database.Class.php:169 | implode puts exactly one separator before each element after the first |
| Php.JoinEnds | Database.Class.php:81 | implode of a non-empty array starts with the first value's text and ends with the last value's |
| Database.Find | Database.Class.php:89 | the read `$records[$i]` finds the one slot stored under key `$i`, or reports that no slot has that key |
| Database.Create | Database.Class.php:73-96 | the INSERT text built step by step, with string records quoted in place, equals `InsertStatement` over the quoted records |
| Database.QuoteRecordsSlots | Database.Class.php:87-93 | the quoting loop keeps the number, order and keys of the records and leaves non-strings alone; a string is wrapped in `"` with nothing escaped exactly when its key is an integer in `[0, count)`, and is kept unchanged otherwise |
| Database.ListRecordsQuoted | Database.Class.php:87-93 | for a list of records, every string is quoted and every other value is kept, in order |
| Database.AssociativeRecordsUnquoted | Database.Class.php:87-93 | records stored under string keys are never quoted |
| Database.InsertLayout | Database.Class.php:76-96 | the INSERT starts with ``INSERT INTO `table` ``; for null-like columns it is exactly that head and the VALUES clause, otherwise the head is followed by ` (column list)`; a `(` follows the head and blank exactly when the columns are not null-like; the text ends with ` VALUES (...)` over the quoted records |
| Database.InsertExample | Database.Class.php:76-96 | ``create('users', ['Adam', 30], ['name', 'age'])`` builds ``INSERT INTO `users` (name, age) VALUES ("Adam", 30)`` |
| Database.BuildSelect | Database.Class.php:118-133 | the SELECT always starts with the head ``SELECT cols FROM `table` ``; it is only the head exactly when all four optional arguments are null-like; a WHERE directly follows the head when the where is not null-like; an OFFSET clause ends the text when the offset is not null-like |
| Database.AppendClauseGrows | Database.Class.php:123-133 | one `if ($arg != null) $stmt .= ...` step keeps the text built so far, and adds text exactly when its argument is not null-like |
| Database.SelectClauses | Database.Class.php:123-133 | the tail clauses hold one clause for each argument that is not null-like, in the fixed order WHERE, ORDER BY, LIMIT, OFFSET |
| Database.RenderClausesAppend | Database.Class.php:123-133 | rendering a split list of clauses is rendering each part and concatenating |
| Database.SelectIsHeadAndClauses | Database.Class.php:121-133 | the sequential appends of `read` give the head ``SELECT cols FROM `table` `` followed by exactly the rendered `SelectClauses` |
| Database.SelectNullLikeOmitted | Database.Class.php:123-133 | a null-like argument, such as a LIMIT or OFFSET of 0, builds the same text as null |
| Database.SelectDefaults | Database.Class.php:118-121 | with every optional argument at its default, `read('t')` builds ``SELECT * FROM `t` `` |
| Database.SelectExample | Database.Class.php:105-133 | the documented call builds ``SELECT name, email, password FROM `user` WHERE name = Adam ORDER BY 7 ASC LIMIT 10 OFFSET 15`` |
| Database.Update | Database.Class.php:159-174 | the UPDATE text built with the `$args` loop equals `UpdateStatement` |
| Database.AssignmentForm | Database.Class.php:167 | an assignment is the column, ` = ` and the value: a string value wrapped in `"` as `create` quotes it, anything else as its string conversion |
| Database.UpdateCondition | Database.Class.php:171-174 | WHERE is added exactly when the where is a non-empty string; any other where builds the same text as null |
| Database.UpdateSnoc | Database.Class.php:164-169 | one more record adds one more `column = value` assignment at the end, after ", " unless it is the first |
| Database.UpdateThreeRecords | Database.Class.php:164-174 | three records give their three assignments in order, separated by ", " |
| Database.UpdateExample | Database.Class.php:149-174 | the documented call with id 5 builds ``UPDATE `users` SET name = "Adam", gender = "male", Age = 30 WHERE id = 5`` |
| Database.BuildDelete | Database.Class.php:192-203 | the DELETE starts with `DELETE `; with a null-like where the rest is the bare table; otherwise it is ``DELETE FROM `table` WHERE `` followed by the where's text, and nothing else |
| Database.DeleteFromIffCondition | Database.Class.php:195-203 | for a table name not itself starting with ``FROM ` ``, the DELETE starts with ``DELETE FROM ` `` exactly when a condition is given |
| Database.DeleteWithoutConditionLacksFrom | Database.Class.php:197-199 | `delete('users')` builds `DELETE users`, which does not start with `DELETE FROM ` |
| Database.BuildDeleteFrom | Database.Class.php:197-203 | the corrected DELETE always starts with ``DELETE FROM `table` ``; a WHERE clause follows exactly when the where is not null-like |
| Database.DeleteFromAgreesWithCondition | Database.Class.php:195-203 | the corrected DELETE equals the written one when a condition is given, and differs from it when none is |

## Left out

- Connection setup and teardown and the credentials (Database.Class.php:28-62): they are I/O, and nothing in the statement text depends on them.
- Executing the statement (Database.Class.php:99, 136, 175, 204) and its result, including `read`'s `die` on failure (Database.Class.php:140): the model stops at the text passed to `query`.
- `sanitize` (Database.Class.php:221-225): it calls the driver's `real_escape_string`, which is foreign code. No claim is made about SQL injection.
- Float formatting: a float value carries its rendered text, and whether it is zero, as given data.
- Integer width: PHP integers are 64-bit and overflow into floats. The model's integers are unbounded.
- Objects, resources and `__toString` as arguments: not modelled. Values are null, booleans, integers, floats, strings and arrays.
- PHP turns a decimal string key such as "5" into the integer key 5. The model takes keys as already normalised.
- Notices and warnings: an undefined key, or an array converted to "Array". They do not change the text.
- A non-array `$records`: records are always an array here. In `create`, `count` on a non-array throws from PHP 8 on, so nothing is sent; PHP 7.2-7.4 only warn, and count null as 0 and any other scalar as 1. In `update`, `foreach` over a non-array only warns and runs no iteration, so the text sent is the one for `[]`, which is `UpdateStatement` over no records.
- Strings are sequences of characters; PHP's byte strings and encodings are not modelled.
- Database.Create: requires the records to have distinct keys. Every PHP array has distinct keys, so this asks nothing of a real caller.
- Database.DeleteFromIffCondition: assumes the table name does not itself start with ``FROM ` ``. Such a name would make the written statement look like the guarded form.

## Findings

| source | as written | input that shows it | evidently intended | confidence | as-written member | corrected member |
|---|---|---|---|---|---|---|
| Database.Class.php:197-199 | with no condition, `delete` builds `"DELETE " . $table`, with no FROM and no backticks | `delete('users')` builds `DELETE users` | ``DELETE FROM `users` ``, the same form as the conditioned branch | high, by reading; not executed | Database.DeleteWithoutConditionLacksFrom | Database.BuildDeleteFrom |

`Database.BuildDelete` models the code as written. `Database.BuildDeleteFrom` is the corrected statement. The lemma `Database.DeleteFromAgreesWithCondition` relates the two.
