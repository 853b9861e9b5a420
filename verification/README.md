# Student records: a verified model

The system is a small school-records web application. A Flask back end (`app.py`)
keeps three SQLite tables:

- `Alunos`: students, with a unique `numero_matricula`.
- `modules`: modules, with a unique name.
- `module_data`: one grade row per student and module. It holds absences and four grades.

Creating a module gives every existing student a zero grade row for it. Adding a
student gives that student a zero row in every existing module. A browser script
(`static/js/main.js`) validates form input: a CPF (the Brazilian taxpayer number),
an e-mail address and a phone number. It also exports tables as CSV and picks
the icon for a notification.

This project models both halves in Dafny and proves properties of the model.

- **Store** (`schema.dfy`, `cascade.dfy`, `handlers.dfy`):
  - The database is an immutable value. Each table is a sequence in rowid order, and
    each AUTOINCREMENT counter is the last id issued. Unordered `SELECT`s are taken to
    read rows in that order (see "Left out").
  - Each route handler is a pure function from the store and the request's fields to
    a status and the new store. A failed request leaves the store as it was, which
    models the rollback.
- **Grid** (`grid.dfy`):
  - The schema constraints are ordered ids, unique numbers and unique names.
  - The enrollment grid says that every (student, module) pair has exactly one grade row.
  - Every mutating route except the manual insert preserves both, on every input.
  - The manual insert can break the grid. The proofs show how.
- **Lookups** (`queries.dfy`): a write is read back, a new enrollment reads as zeros, a
  search finds what was added, and deletes leave the grade rows behind.
- **Browser helpers** (`cpf.dfy`, `contact.dfy`, `csv.dfy`, `icons.dfy`):
  - Each of the three validators is proved equivalent to an independent description:
    the CPF check to the textbook check-digit form, the e-mail pattern to a shape
    predicate, the phone pattern to formatting well-formed parts.
  - For the CSV export, splitting the output on line breaks and then on commas gives
    back the header line and one quoted field per header and record. This holds only
    when no key or value contains a line break, and no value a comma, which the export
    does not escape. A counterexample lemma shows what happens otherwise.
  - For the icon lookup, the code as written and the intended lookup are proved to agree
    on every kind except the names every object inherits, and to differ on all of those.

Modelling decisions that follow the code:

- **Foreign keys:** the connection never turns on SQLite's `PRAGMA foreign_keys`. So
  `ON DELETE CASCADE` does nothing, and deleting a student or a module keeps its
  grade rows.
- **No roles:** the code has no roles, no school periods and no final-grade formula.
  `nota_final` is a stored value like the other grades.
- **Truthiness:** the required-field checks use Python truthiness.
  - `atualizar_informacoes_modulo` and `adicionar_modulo_aluno` reject a zero grade as
    missing.
  - `adicionar_aluno` only checks that `atestados` is present, so 0 is accepted.
- **Edits:** `editar_aluno` overwrites every column it names. A missing optional field
  is therefore cleared. A missing NOT NULL field raises an IntegrityError that the
  handler does not catch (a server error, nothing committed).
- **Missing pairs:** `editar_informacoes_modulo` and `atualizar_informacoes_modulo`
  report success even when no row matches the pair.
- **Strings:** JavaScript strings are sequences of UTF-16 code units. Every character
  the patterns single out lies in the Basic Multilingual Plane, so one `char` stands
  for one code unit. `\s` is the full ECMAScript whitespace set and `\d` is ASCII
  digits only.

## Model

| member | source | states |
|---|---|---|
| Schema.CountPairAppend | app.py:35-46 | the number of grade rows of a pair in two concatenated row tables is the sum of the two counts |
| Schema.CountPairZero | app.py:35-46 | a pair whose row count is zero owns no row of the table |
| Schema.SamePairsSameCount | app.py:35-46 | rewriting grade values without touching the ids of a row's pair keeps every pair's row count |
| Cascade.ModuleCascade | app.py:73-81 | the rows `criar_modulo` inserts: one per student, in the order students are read, with consecutive row ids, the new module id and all-zero values |
| Cascade.StudentCascade | app.py:114-122 | the rows `adicionar_aluno` inserts: one per module, in order, with consecutive row ids, the new student id and all-zero values |
| Cascade.ModuleCascadeCount | app.py:73-81 | in the module cascade, each existing student has exactly one row for the new module, and no other pair has a row |
| Cascade.StudentCascadeCount | app.py:114-122 | in the student cascade, each existing module has exactly one row for the new student, and no other pair has a row |
| Handlers.CreateModule | app.py:59-89 | a missing or empty name is rejected, as is a name already in use, and the store is left unchanged. Otherwise it creates module `last+1` and appends one zero row per student with fresh row ids; students and old rows are untouched |
| Handlers.AddStudent | app.py:91-130 | a request missing a required field is rejected, as is a number already used, with nothing written. Otherwise the student gets the next id and one zero row per module; modules and old rows are untouched |
| Handlers.EditStudent | app.py:132-158 | an unknown number is not found. A null NOT NULL field is a server error with nothing committed. Otherwise only the matching student changes: every column except id and number takes the request's value, and absent optional fields are cleared |
| Handlers.DeleteStudent | app.py:160-171 | an unknown number is not found. Otherwise exactly the students with that number disappear, and modules and grade rows are unchanged |
| Handlers.DeleteModule | app.py:173-192 | a missing name is a bad request and an unknown name is not found. Otherwise exactly the module with that name disappears and its grade rows remain |
| Handlers.UpdateRows | app.py:370-376 | rewriting the grades of a pair's rows keeps every row's id, student and module |
| Handlers.EditModuleData | app.py:337-380 | no field present is a bad request. Otherwise each row of the pair takes every present field and keeps the rest, and every other row and table is unchanged |
| Handlers.UpdateModuleData | app.py:411-433 | fails unless all five values are truthy. Otherwise every row of the pair holds exactly the five values, and nothing else changes |
| Handlers.AddModuleData | app.py:382-409 | a request with a missing or zero id or value is rejected with nothing written. Any other request is Created whatever the store holds: no check of student, module or existing row. On success the students, modules and their counters are unchanged, the old rows are kept as a prefix, and one row is appended with the next row id, the request's pair and its five values |
| Handlers.GetModuleData | app.py:261-297 | not found exactly when the student id is unknown or the pair has no row. Otherwise it returns that student's name and number with the values of a row of the pair |
| Handlers.Roster | app.py:314-319 | the join holds exactly the (student, row) pairs whose row belongs to the module and whose ids match |
| Handlers.StudentsOfModule | app.py:310-335 | either a non-empty list of exactly the module's joined (student, row) pairs, or not found, which happens when no such pair exists. On a database satisfying the schema constraints each pair is listed once |
| Handlers.RosterNoDuplicates | app.py:314-319 | when student ids and row ids are each distinct, the join lists no (student, row) pair twice |
| Handlers.SearchStudent | app.py:194-218 | a given number finds the one student with it, or is not found exactly when no student has it. Otherwise a given name returns exactly the students whose name contains it, or not found when none does. On a database satisfying the schema constraints the matches keep the table's strict id order, so each is listed once. With neither, it is a bad request |
| Handlers.MatchesKeepIdOrder | app.py:210-211 | selecting students from a table in strict id order keeps that order, so the name search lists no student twice |
| GridProofs.EmptyStoreInvariant | app.py:12-53 | the freshly created empty database satisfies the schema constraints and the complete grid |
| GridProofs.AppendFreshRows | app.py:36 | appending rows whose ids continue past every existing id keeps row ids strictly increasing |
| GridProofs.CreateModuleEnrollsEveryStudent | app.py:71-81 | the rows a new module adds give the new module one row per existing student and no other pair any row |
| GridProofs.CreateModuleKeepsConsistent | app.py:29-33 | creating a module keeps ids increasing and module names unique |
| GridProofs.CreateModulePairCount | app.py:71-81 | after creating a module, each pair of an existing student with an old or the new module has exactly one row |
| GridProofs.CreateModuleRowsBounded | app.py:71-81 | after creating a module, every grade row names ids already issued |
| GridProofs.CreateModuleCompletesGrid | app.py:71-81 | creating a module keeps every (student, module) pair at exactly one row |
| GridProofs.CreateModulePreservesInvariant | app.py:59-89 | `criar_modulo` preserves the constraints and the complete grid, whatever its outcome |
| GridProofs.AddStudentEnrollsInEveryModule | app.py:109-122 | the rows a new student adds give the new student one row per existing module and no other pair any row |
| GridProofs.AddStudentKeepsConsistent | app.py:18-26 | adding a student keeps ids increasing and numbers unique |
| GridProofs.AddStudentPairCount | app.py:109-122 | after adding a student, each pair of an old or the new student with an existing module has exactly one row |
| GridProofs.AddStudentRowsBounded | app.py:109-122 | after adding a student, every grade row names ids already issued |
| GridProofs.AddStudentCompletesGrid | app.py:109-122 | adding a student keeps every (student, module) pair at exactly one row |
| GridProofs.AddStudentPreservesInvariant | app.py:91-130 | `adicionar_aluno` preserves the constraints and the complete grid, whatever its outcome |
| GridProofs.EditStudentKeepsIds | app.py:150-156 | after an edit every student keeps an issued id that already had one row per module |
| GridProofs.EditStudentPreservesInvariant | app.py:132-158 | `editar_aluno` preserves the constraints and the complete grid |
| GridProofs.DeleteStudentPreservesInvariant | app.py:160-171 | `excluir_aluno` preserves the constraints and the complete grid: the remaining students keep their rows |
| GridProofs.DeleteModulePreservesInvariant | app.py:173-192 | `excluir_modulo` preserves the constraints and the complete grid |
| GridProofs.RewriteKeepsInvariant | app.py:370-376 | any rewrite of grade values that keeps every row's id and pair keeps the invariant |
| GridProofs.EditModuleDataPreservesInvariant | app.py:337-380 | `editar_informacoes_modulo` preserves the constraints and the complete grid |
| GridProofs.UpdateModuleDataPreservesInvariant | app.py:411-433 | `atualizar_informacoes_modulo` preserves the constraints and the complete grid |
| GridProofs.AddModuleDataKeepsConsistent | app.py:398-401 | the schema accepts every manual insert and its constraints still hold |
| GridProofs.AddModuleDataDuplicatesRow | app.py:398-401 | a manual insert for an enrolled pair succeeds and gives that pair a second row, so the grid is no longer complete |
| GridProofs.ManualRowForUnissuedId | app.py:398-401 | a manual row naming the student id AUTOINCREMENT will issue next is accepted and gives that pair one row |
| GridProofs.CascadeOntoTakenPair | app.py:109-122 | when the next student id already has a row in a module, adding that student gives the pair a second row and breaks the grid |
| GridProofs.ManualRowCollidesWithNextStudent | app.py:382-409 | a manual row for the next student id followed by adding a student leaves a pair with two rows |
| GridProofs.HandlePreservesInvariant | app.py:59-433 | every mutating route other than `adicionar_modulo_aluno` preserves the constraints and the complete grid |
| GridProofs.ReplayPreservesInvariant | app.py:59-433 | any sequence of such requests preserves them |
| GridProofs.GridFromEmptyStore | app.py:12-53 | starting from the empty database, any such sequence leaves every (student, module) pair with exactly one row |
| QueryProofs.EnrolledPairIsFound | app.py:261-297 | on a complete grid, the module data of any existing student in any existing module is found |
| QueryProofs.EditModuleDataReadBack | app.py:337-380 | after a partial update the pair reads back as the old values with the patch applied, and a pair not found before is still not found |
| QueryProofs.UpdateModuleDataReadBack | app.py:411-433 | after a full update the pair reads back exactly the values written |
| QueryProofs.NewStudentStartsAtZero | app.py:114-122 | a student just added reads back, in every module, with its name, number and all-zero values |
| QueryProofs.NewModuleStartsAtZero | app.py:73-81 | every student reads back in a module just created with all-zero values |
| QueryProofs.CascadeRowsAreZero | app.py:73-81 | rows appended for a module that had no rows are the only rows for it, and all are zero |
| QueryProofs.ManualRowReadBack | app.py:261-297 | after a manual insert for a pair with no row, the pair is found exactly when the student exists, and then it reads back the five values the request carried |
| QueryProofs.AddedStudentIsFoundByNumber | app.py:194-207 | a search by a just-added `numero_matricula` returns exactly the new record |
| QueryProofs.DeletedStudentIsNotFound | app.py:160-207 | after a successful delete, a search by that number is not found |
| QueryProofs.DeletedModuleStillListsStudents | app.py:173-192 | after deleting a module, listing its id still returns each of its students |
| Cpf.OnlyDigits | static/js/main.js:395 | stripping leaves only ASCII digits and never lengthens the input |
| Cpf.OnlyDigitsAppend | static/js/main.js:395 | stripping distributes over concatenation |
| Cpf.OnlyDigitsOfDigits | static/js/main.js:395 | a string of digits is left as it is |
| Cpf.RepeatedLiteralsAreAllSame | static/js/main.js:397-408 | an eleven-digit string is one of the ten rejected literals exactly when all its digits are equal |
| Cpf.AcceptsDigitsMeaning | static/js/main.js:396-427 | the verdict on a digit string is: eleven digits, not all equal, and both check digits correct |
| Cpf.CheckDigit | static/js/main.js:413-415 | the computed check digit is a single decimal digit, and it is 0 exactly when the remainder is 0 or 1 |
| Cpf.CheckDigitClosedForm | static/js/main.js:413-415 | `11 - sum % 11` with 10 and 11 sent to 0 equals the textbook form `10·sum mod 11 mod 10` |
| Cpf.ValidateCpf | static/js/main.js:394-428 | an accepted input has exactly eleven digits that are not all the same |
| Cpf.ValidateCpfMeaning | static/js/main.js:394-428 | acceptance holds exactly when there are eleven digits, not all equal, and each check digit equals `10·(weighted sum) mod 11 mod 10` |
| Cpf.ValidateCpfLoop | static/js/main.js:394-428 | the loop-and-compare algorithm returns the same verdict as the functional definition |
| Cpf.ValidateCpfSeesOnlyDigits | static/js/main.js:395 | the verdict depends only on the digit subsequence of the input |
| Cpf.SeparatorIsIgnored | static/js/main.js:395 | inserting a non-digit anywhere does not change the verdict |
| Cpf.WeightedSumPrefix | static/js/main.js:411-412 | a weighted sum over the first n digits reads nothing after them |
| Cpf.ChangingLastDigitRejects | static/js/main.js:419-426 | changing only the last digit of an accepted number makes it rejected |
| Cpf.LastDigitIsDetermined | static/js/main.js:419-426 | two accepted numbers that agree on all but the last digit agree on it too |
| Cpf.Complete | static/js/main.js:410-426 | the two check digits computed for a nine-digit base are digits |
| Cpf.CompleteHasChecksums | static/js/main.js:410-426 | a base followed by its computed check digits passes both comparisons |
| Cpf.CompleteOfRepeated | static/js/main.js:397-426 | the completion of a repeated-digit base is a repeated-digit string |
| Cpf.CompleteIsAccepted | static/js/main.js:394-428 | a nine-digit base with its check digits is accepted exactly when the base is not one digit repeated |
| Cpf.WeightedSumOfRun | static/js/main.js:411-412 | on a run of one digit, the weighted sum is that digit times the sum of the weights |
| Cpf.CheckDigitOfRun | static/js/main.js:413-415 | for the weight totals of both rounds, the check digit of a repeated digit v is v |
| Cpf.RepeatedPassesChecksums | static/js/main.js:397-426 | every repeated-digit string passes both check-digit comparisons, so only the explicit literal list rejects it |
| Cpf.KnownNumberChecksums | static/js/main.js:410-426 | `52998224725` passes both comparisons |
| Cpf.KnownNumberIsAccepted | static/js/main.js:394-428 | `52998224725` is accepted |
| Cpf.WrongLastDigitChecksums | static/js/main.js:419-426 | `52998224726` fails the second comparison |
| Cpf.WrongLastDigitIsRejected | static/js/main.js:394-428 | `52998224726` is rejected |
| Contact.ValidateEmailMeaning | static/js/main.js:384-387 | the e-mail pattern accepts exactly the strings with no whitespace, one `@` not at the start, and a `.` after it with a character on each side |
| Contact.AcceptedEmailHasShape | static/js/main.js:384-387 | every accepted address has that shape |
| Contact.EmailShapeIsAccepted | static/js/main.js:384-387 | every string of that shape is accepted |
| Contact.PlainAddressIsAccepted | static/js/main.js:384-387 | `ana@escola.br` is accepted |
| Contact.DotlessDomainIsRejected | static/js/main.js:384-387 | `ana@escola` is rejected |
| Contact.SecondAtIsRejected | static/js/main.js:384-387 | `a@b@c.d` is rejected |
| Contact.BlankIsRejected | static/js/main.js:384-387 | an address with a blank inside is rejected |
| Contact.ValidatePhone | static/js/main.js:389-392 | an accepted phone number has 14 or 15 characters |
| Contact.FormatPhone | static/js/main.js:389-392 | a written-out number is four characters longer than its digits |
| Contact.ParsePhone | static/js/main.js:389-392 | an accepted number splits into a two-digit area code, a whitespace character, a four- or five-digit exchange and a four-digit line, which write it back out |
| Contact.FormatPhoneIsAccepted | static/js/main.js:389-392 | every number written from well-formed parts is accepted and parses back to those parts |
| Contact.ValidatePhoneMeaning | static/js/main.js:389-392 | the phone pattern accepts exactly the numbers written out from well-formed parts |
| Contact.MobileNumberIsAccepted | static/js/main.js:389-392 | `(11) 98765-4321` is accepted |
| Contact.LandlineNumberIsAccepted | static/js/main.js:389-392 | `(11) 3456-7890` is accepted |
| Contact.MalformedNumbersAreRejected | static/js/main.js:389-392 | a number without the blank or without the parentheses is rejected |
| Csv.Keys | static/js/main.js:374 | the header list is the record's own keys, in order |
| Csv.Get | static/js/main.js:377 | a property lookup yields the value of the first property with that key, and `undefined` when the record has no such key |
| Csv.Text | static/js/main.js:377 | a field prints as empty exactly when its value is falsy. A non-empty string prints as itself, `true` as `true`, and a non-zero number (below 10^21 in magnitude) as its decimal form |
| Csv.Join | static/js/main.js:376-378 | joining two or more pieces puts the separator in the result |
| Csv.Lines | static/js/main.js:374-378 | there is one line per record plus the header line |
| Csv.ConvertToCsv | static/js/main.js:371-381 | the output is empty exactly when the argument is not an array or is an empty array |
| Csv.Split | static/js/main.js:371-381 | splitting always yields at least one piece |
| Csv.SplitJoin | static/js/main.js:375-378 | splitting a join of pieces free of the separator gives the pieces back |
| Csv.JoinAvoids | static/js/main.js:375-378 | a joined line contains a character only if a piece or the separator does |
| Csv.ConvertToCsvLines | static/js/main.js:371-381 | when no key or value holds a line break, the output's lines are the header line and then one data line per record, in order |
| Csv.DataLineFields | static/js/main.js:377 | when no value holds a comma (keys may), a data line splits into one quoted field per header, holding that header's text |
| Csv.EmptyFieldMeansFalsyOrMissing | static/js/main.js:377 | a field is `""` exactly when the value is falsy, and a missing key gives `""` |
| Csv.ZeroPrintsEmpty | static/js/main.js:377 | a record whose only value is 0 exports an empty field |
| Csv.LineBreakInValueSplitsRecord | static/js/main.js:375-378 | a value holding a line break turns one record into two data lines: the output has three lines |
| Icons.GetIconForType | static/js/main.js:139-147 | the intended lookup always gives one of the three icons: success exactly for `success`, warning exactly for `danger` or `warning`, and info for every other kind |
| Icons.AsWrittenAgreesOffPrototype | static/js/main.js:139-147 | the two agree on every kind that is not an inherited member name |
| Icons.AsWrittenDiffersOnPrototype | static/js/main.js:139-147 | on every inherited member name the lookup as written differs from the intended one, which gives the info icon |
| Icons.ToStringIsNotAnIcon | static/js/main.js:139-147 | `toString` is not a table key, yet the lookup as written does not give the info icon |

## Left out

- Csv.Text: numbers are modelled only below 10^21 in magnitude, because JavaScript's `String(n)` prints larger ones in exponent form (`1e+21`), which the decimal printer does not produce; fractions are not modelled either.
- SQL `LIKE`: the name search is modelled as substring containment. SQLite's
  ASCII case folding and the `%`/`_` wildcards inside the search term are not modelled.
- Lookup order: `obter_dados_modulo_aluno` and `ver_alunos_modulo` return "a" row and
  "the set of" pairs. SQLite's join and row order without `ORDER BY` is unspecified,
  so the model states no order.
- `REAL` grade columns are modelled as integers: floating point is out of scope. JSON
  type coercion is also not modelled (a string where a number is expected, and so on).
- Out of scope are HTTP transport, Flask routing, JSON encoding, connection handling,
  `inicializar_bd`'s error printing, and the routes outside the core: `index`,
  `detalhes_aluno`, `detalhes_aluno_id` and `listar_modulos`.
- Cascade.ModuleCascade / Cascade.StudentCascade: the cascades read the parent ids with
  `SELECT id FROM Alunos` and `SELECT id FROM modules`, which have no `ORDER BY`
  (app.py:75, 116). The model fixes that read order as rowid order. SQLite does not
  promise it: a scan of a UNIQUE index would return the ids in `numero_matricula` or
  `nome` order. So which new row id goes to which parent is an assumption. The grid
  lemmas count the rows of each pair and do not use which id a row received.
- `excluir_aluno` and `excluir_modulo` are modelled with foreign keys off, as the code
  runs them. The `ON DELETE CASCADE` the schema declares never takes effect.
- Not modelled in the browser script: `makeRequest`, `exportData` (the download),
  `formatDate`, `formatNumber`, the input masks and all DOM code.
- `convertToCSV` inputs:
  - Non-object array elements, float values, and object or array values are not
    modelled.
  - Neither are keys inherited through a record's prototype chain.
  - A record is its own properties in `Object.keys` order.
- Csv.ConvertToCsvLines: stated only when no key or value holds a line break, because
  the function escapes nothing. Csv.LineBreakInValueSplitsRecord shows what happens
  otherwise.
- Csv.DataLineFields: stated only when no value holds a comma, for the same reason. Commas in keys are allowed, since keys never reach a data line.
- Contact.ValidatePhone: its contract states only the length; the full
  characterisation is Contact.ValidatePhoneMeaning.
- Cpf.ValidateCpf: its contract states only the necessary shape; the full
  characterisation is Cpf.ValidateCpfMeaning.
- Strings are sequences of `char`. Characters outside the Basic Multilingual Plane,
  which JavaScript splits into two code units, are not modelled.

## Findings

| source | as written | input that shows it | evidently intended | confidence | as-written member | corrected member |
|---|---|---|---|---|---|---|
| static/js/main.js:139-147 | the icon comes from `icons[type] \|\| 'info-circle-fill'` on a plain object literal, so the lookup also sees `Object.prototype` members | kind `"toString"` (also `"constructor"`, `"valueOf"`, `"__proto__"`, …) gives a function instead of an icon name | any kind that is not a key of the table gets the info icon | low, not executed | Icons.GetIconForTypeAsWritten, Icons.ToStringIsNotAnIcon, Icons.AsWrittenDiffersOnPrototype | Icons.GetIconForType, Icons.AsWrittenAgreesOffPrototype |
