# ABCU course-advising catalog, modelled in Dafny

The ABCU advising program reads a file of comma-separated lines. Each line holds a course number, a title and any number of prerequisite course numbers. The program keeps the resulting courses and answers two queries:

- the course list, sorted by course number;
- the details of one course, with each prerequisite's title looked up in the catalog ("Unknown" when no loaded course has that number, "None" when there are no prerequisites).

The repository has three variants of this logic. Each one is a module with a `Catalog` class whose fields are the containers that variant's `main` keeps:

- **EnhancedOne** (`Enhancement_One/Enhanced_ProjectTwo.cpp`):
  - Fields are trimmed of spaces and tabs.
  - A course number is 5 to 8 alphanumeric characters.
  - The catalog keeps a vector of courses in file order and an unordered map from number to course.
  - A lookup trims and upper-cases the query, then scans the map for a key that matches once upper-cased.
- **EnhancedTwo** (`Enhancement_Two/Enhanced_ABCU_Advising_Program.cpp`):
  - Fields are not trimmed.
  - A course number matches `^[A-Z]{4}[0-9]{3}$`.
  - The catalog keeps the map and a vector that is sorted once, at the end of loading.
  - A lookup upper-cases the query, rejects an invalid format, then does an exact `find`.
  - `milestone_3_sources/milestone_3_sources/Enhanced_ABCU_Advising_Program.cpp` is byte-identical to this file. Every row below that cites `Enhancement_Two/Enhanced_ABCU_Advising_Program.cpp` covers the same lines of that copy.
- **Original** (`Enhancement_One/Original_ProjectTwo.cpp`):
  - Nothing is trimmed or validated.
  - The catalog is one vector.
  - A lookup is a case-insensitive linear scan, and each prerequisite title comes from a second scan for its first exact match.
  - `Enhancement_Two/Original_ProjectTwo.cpp` is byte-identical to this file. Every row citing `Enhancement_One/Original_ProjectTwo.cpp` covers the same lines of that copy.

Files:

- `wrappers.dfy`: `Option`.
- `text.dfy` (module `Text`):
  - ASCII character classes and `toupper`.
  - The field splitting that `std::getline` on a string stream performs.
  - The non-trimming `split` shared by EnhancedTwo and Original (the two functions are textually the same).
  - The order `std::string::operator<`.
- `courses.dfy` (module `Courses`):
  - The `Course` record and the result types of the two queries.
  - The accepted courses of a file.
  - The insert-or-assign index `courseMap[number] = course`.
  - Prerequisite resolution.
  - An in-place sort of an array of courses by number.
- `enhanced_one.dfy`, `enhanced_two.dfy`, `original.dfy`: one module per variant.
- `compare.dfy` (module `Compare`): how the variants' rules and answers relate.

Every loading method is proved against a function of the file's lines:

- `Accepted(lines, ParseLine)` gives the courses in file order.
- `Index(...)` gives the map.

The queries are proved against `Lookup` functions or against explicit postconditions. The properties each variant promises are proved as lemmas about those functions.

Four behaviours of the code worth knowing, which the model follows:

- EnhancedTwo and Original return true after any successful open, even when no line was accepted.
- EnhancedOne clears both containers before it finds that no line was accepted. A failed load of a readable file therefore leaves them empty, not unchanged.
- The sort is `std::sort`, which is not stable. Only sortedness and permutation are claimed.
- `courseMap[courseNumber] = course` (Enhancement_One/Enhanced_ProjectTwo.cpp:101, Enhancement_Two/Enhanced_ABCU_Advising_Program.cpp:77) needs a default constructor that `Course` lacks. It is modelled as its evident intent: insert or overwrite, so the last line with a number wins.

## Model

| member | source | states |
|---|---|---|
| Text.ToUpper | Enhancement_One/Enhanced_ProjectTwo.cpp:141 | `::toupper` in the "C" locale: a lower-case letter becomes the letter 32 code points below it, which is upper case; every other character is unchanged |
| Text.Upper | Enhancement_One/Enhanced_ProjectTwo.cpp:140-141 | `std::transform` with `::toupper` (also Enhancement_Two/Enhanced_ABCU_Advising_Program.cpp:112-113 and Enhancement_One/Original_ProjectTwo.cpp:98-99): the result has the same length, each lower-case letter replaced by the upper-case letter 32 code points below it, and every other character in its place |
| Text.Fields | Enhancement_Two/Enhanced_ABCU_Advising_Program.cpp:26 | the fields `getline` reads between delimiters, left to right, empty ones included; there is always at least one (the empty string has the one field "") |
| Text.JoinFields | Enhancement_Two/Enhanced_ABCU_Advising_Program.cpp:22-32 | splitting on the delimiter loses nothing: the fields joined with the delimiter give back the line |
| Text.FieldsHaveNoDelimiter | Enhancement_Two/Enhanced_ABCU_Advising_Program.cpp:26 | no field read by `getline` contains the delimiter |
| Text.FieldsAppendPlain | Enhancement_Two/Enhanced_ABCU_Advising_Program.cpp:26 | text without the delimiter only extends the last field |
| Text.TwoFields | Enhancement_Two/Enhanced_ABCU_Advising_Program.cpp:22-32 | a line with a single delimiter splits into exactly the text before it and the text after it |
| Text.NonEmpty | Enhancement_Two/Enhanced_ABCU_Advising_Program.cpp:27-29 | the kept tokens are never empty and never more than the fields |
| Text.NonEmptyMembers | Enhancement_Two/Enhanced_ABCU_Advising_Program.cpp:27-29 | a string is kept if and only if it is a field and not empty |
| Text.NonEmptyOfNonEmpty | Enhancement_One/Original_ProjectTwo.cpp:57-61 | dropping empty strings from a list that has none changes nothing |
| Text.TokensHaveNoDelimiter | Enhancement_Two/Enhanced_ABCU_Advising_Program.cpp:22-32 | every token of the non-trimming split is non-empty and free of the delimiter |
| Text.Split | Enhancement_One/Original_ProjectTwo.cpp:20-30 | the `getline` loop returns exactly the non-empty fields, in order, untrimmed (the same code as Enhancement_Two/Enhanced_ABCU_Advising_Program.cpp:22-32) |
| Text.Less | Enhancement_One/Enhanced_ProjectTwo.cpp:123 | `std::string`'s `<`: never true of a string and itself, and true of a proper prefix and the string it begins |
| Text.LessTotal | Enhancement_One/Enhanced_ProjectTwo.cpp:123 | of two different strings, one is less than the other |
| Text.LessAsymmetric | Enhancement_One/Enhanced_ProjectTwo.cpp:123 | `a < b` and `b < a` never both hold for strings |
| Text.NotLessTransitive | Enhancement_One/Enhanced_ProjectTwo.cpp:123 | "not less than" on strings is transitive, which is what sortedness needs |
| Courses.Accepted | Enhancement_One/Enhanced_ProjectTwo.cpp:66-102 | a file yields at most one course per line |
| Courses.AcceptedStep | Enhancement_One/Enhanced_ProjectTwo.cpp:99-100 | reading one more line appends its course when it has one and changes nothing otherwise |
| Courses.AcceptedComeFromLines | Enhancement_One/Enhanced_ProjectTwo.cpp:66-102 | every stored course is what some line of the file parses to |
| Courses.AcceptedAppend | Enhancement_One/Original_ProjectTwo.cpp:42-64 | loading two pieces of a file in turn accepts the same courses as loading the whole, in file order |
| Courses.Index | Enhancement_One/Enhanced_ProjectTwo.cpp:101 | every key of the map is the number of the course it maps to |
| Courses.IndexStep | Enhancement_One/Enhanced_ProjectTwo.cpp:101 | one more course inserts its number or overwrites that number's entry |
| Courses.IndexKeys | Enhancement_One/Enhanced_ProjectTwo.cpp:99-101 | the map's keys are exactly the numbers of the stored courses |
| Courses.IndexLastWins | Enhancement_One/Enhanced_ProjectTwo.cpp:101 | the entry of a number is the last course that carries it |
| Courses.IndexAppendOther | Enhancement_Two/Enhanced_ABCU_Advising_Program.cpp:77 | courses with other numbers added later leave a number's entry as it was |
| Courses.LastLineWins | Enhancement_Two/Enhanced_ABCU_Advising_Program.cpp:51-79 | after loading a file, a number maps to the course of the last accepted line that carries it |
| Courses.TitleIn | Enhancement_One/Enhanced_ProjectTwo.cpp:166-167 | "Unknown" for a code that is not a key; in a map keyed by number, any other title is that of a stored course with exactly that number |
| Courses.ResolvePrerequisites | Enhancement_One/Enhanced_ProjectTwo.cpp:165-172 | each prerequisite, in stored order, is paired with the title of its exact map entry, or "Unknown" when it has none |
| Courses.NeighboursSorted | Enhancement_One/Enhanced_ProjectTwo.cpp:121-124 | a sequence whose neighbours are in order is sorted by number |
| Courses.SortCourses | Enhancement_One/Enhanced_ProjectTwo.cpp:121-124 | sorting in place leaves the array non-decreasing by number and a permutation of what it was |
| Courses.SortedCopy | Enhancement_One/Original_ProjectTwo.cpp:78-82 | the sorted copy is non-decreasing by number and a permutation of the vector |
| Courses.SortedListing | Enhancement_One/Original_ProjectTwo.cpp:71-82 | `printCourseList` of the vector-based variants (also Enhancement_One/Enhanced_ProjectTwo.cpp:114-124): nothing loaded exactly when the vector is empty; otherwise a permutation of it sorted by number |
| Courses.SameCoursesSameNumbers | Enhancement_One/Original_ProjectTwo.cpp:78-82 | a permutation has the same length and the same set of numbers |
| EnhancedOne.FirstNonBlank | Enhancement_One/Enhanced_ProjectTwo.cpp:23 | `find_first_not_of(" \t")`: everything before the result is blank, and the result is the end or a non-blank character |
| EnhancedOne.LastNonBlank | Enhancement_One/Enhanced_ProjectTwo.cpp:25 | `find_last_not_of(" \t")`: everything after the result is blank, and the result is -1 (npos) or a non-blank character |
| EnhancedOne.Trim | Enhancement_One/Enhanced_ProjectTwo.cpp:22-27 | the result is "" exactly when the string is all blank; otherwise it neither starts nor ends with a space or tab |
| EnhancedOne.TrimStrips | Enhancement_One/Enhanced_ProjectTwo.cpp:22-27 | trimming removes only a blank prefix and a blank suffix; the characters between are unchanged |
| EnhancedOne.TrimParts | Enhancement_One/Enhanced_ProjectTwo.cpp:23-26 | gives that blank prefix and suffix explicitly |
| EnhancedOne.TrimOfTrimmed | Enhancement_One/Enhanced_ProjectTwo.cpp:22-27 | a string that neither starts nor ends blank is its own trim |
| EnhancedOne.TrimIdempotent | Enhancement_One/Enhanced_ProjectTwo.cpp:22-27 | `trim(trim(s)) == trim(s)` |
| EnhancedOne.TrimLeadingBlank | Enhancement_One/Enhanced_ProjectTwo.cpp:22-27 | one space in front of a trimmed non-empty string is all that trimming takes off |
| EnhancedOne.TrimKeepsCharacters | Enhancement_One/Enhanced_ProjectTwo.cpp:26 | every character of the trimmed string occurs in the original |
| EnhancedOne.IsValidCourseNumber | Enhancement_One/Enhanced_ProjectTwo.cpp:30-36 | true exactly when the length is 5 to 8 and every character is an ASCII letter or digit |
| EnhancedOne.TrimAll | Enhancement_One/Enhanced_ProjectTwo.cpp:44 | each field is replaced by its trim, position by position |
| EnhancedOne.TrimmedTokensShape | Enhancement_One/Enhanced_ProjectTwo.cpp:39-50 | every token of the trimming split is non-empty, already trimmed and free of the delimiter |
| EnhancedOne.TrimmedTwoFields | Enhancement_One/Enhanced_ProjectTwo.cpp:39-50 | a line with one delimiter and two non-blank fields splits into those two fields, trimmed |
| EnhancedOne.SplitTrimmed | Enhancement_One/Enhanced_ProjectTwo.cpp:39-50 | the `getline` loop returns the trimmed fields, in order, with the empty ones dropped |
| EnhancedOne.KeptPrerequisites | Enhancement_One/Enhanced_ProjectTwo.cpp:88-97 | every kept prerequisite is a valid trimmed token, and every token whose trim is valid is kept |
| EnhancedOne.ParseLine | Enhancement_One/Enhanced_ProjectTwo.cpp:68-99 | an accepted line gives a course with a valid number, a non-empty trimmed comma-free title and only valid prerequisites |
| EnhancedOne.ParseLineFields | Enhancement_One/Enhanced_ProjectTwo.cpp:68-81 | an accepted line is not blank, and its course's number and title are its first two trimmed tokens |
| EnhancedOne.CollectPrerequisites | Enhancement_One/Enhanced_ProjectTwo.cpp:88-97 | the prerequisite loop keeps exactly the valid trimmed tokens, in order |
| EnhancedOne.ParseCourseLine | Enhancement_One/Enhanced_ProjectTwo.cpp:66-99 | one pass of the load loop computes what `ParseLine` says: blank lines, lines of fewer than two tokens and invalid numbers are skipped |
| EnhancedOne.AcceptedWellFormed | Enhancement_One/Enhanced_ProjectTwo.cpp:68-100 | every course stored from any file is well formed |
| EnhancedOne.Catalog.constructor | Enhancement_One/Enhanced_ProjectTwo.cpp:188-189 | both containers start empty |
| EnhancedOne.Catalog.Load | Enhancement_One/Enhanced_ProjectTwo.cpp:53-111 | an unopenable file returns false and changes nothing; otherwise `courses` is every accepted line in file order, `courseMap` its last-wins index, and the result is true exactly when some course was accepted; a false result after an open leaves both empty |
| EnhancedOne.Catalog.ListCourses | Enhancement_One/Enhanced_ProjectTwo.cpp:114-130 | nothing loaded for an empty vector; otherwise a permutation of `courses` sorted by number |
| EnhancedOne.Catalog.CourseInfo | Enhancement_One/Enhanced_ProjectTwo.cpp:133-175 | nothing loaded for an empty map; not found when no key matches the trimmed query ignoring case; otherwise the details of a matching key's course, with each prerequisite's exact map title or "Unknown" |
| EnhancedTwo.IsValidCourseNumber | Enhancement_Two/Enhanced_ABCU_Advising_Program.cpp:35-38 | the whole string matches `^[A-Z]{4}[0-9]{3}$`; a valid number is made only of letters and digits and has no lower-case letter |
| EnhancedTwo.ValidNumberIsUpperCase | Enhancement_Two/Enhanced_ABCU_Advising_Program.cpp:35-38 | a valid number is unchanged by upper-casing |
| EnhancedTwo.KeptPrerequisites | Enhancement_Two/Enhanced_ABCU_Advising_Program.cpp:69-74 | every kept prerequisite is a valid token, and every valid token is kept |
| EnhancedTwo.ParseLine | Enhancement_Two/Enhanced_ABCU_Advising_Program.cpp:52-76 | an accepted line gives a course with a valid number, a non-empty comma-free title and only valid prerequisites |
| EnhancedTwo.CollectPrerequisites | Enhancement_Two/Enhanced_ABCU_Advising_Program.cpp:69-74 | the prerequisite loop keeps exactly the valid tokens, in order, dropping the others silently |
| EnhancedTwo.ParseCourseLine | Enhancement_Two/Enhanced_ABCU_Advising_Program.cpp:51-76 | one pass of the load loop computes what `ParseLine` says: empty lines, lines of fewer than two tokens and invalid numbers are skipped |
| EnhancedTwo.AcceptedWellFormed | Enhancement_Two/Enhanced_ABCU_Advising_Program.cpp:51-79 | every course stored from any file is well formed |
| EnhancedTwo.Lookup | Enhancement_Two/Enhanced_ABCU_Advising_Program.cpp:105-143 | nothing loaded exactly for an empty map; invalid format exactly when the map is not empty and the upper-cased query fails the pattern; not found, echoing the query, exactly when it passes but is not a key; otherwise the details of the course under the upper-cased query |
| EnhancedTwo.LookupIgnoresCase | Enhancement_Two/Enhanced_ABCU_Advising_Program.cpp:112-123 | queries that upper-case to the same string get the same answer, apart from the query echoed in a not-found report |
| EnhancedTwo.LookupFoundIsKey | Enhancement_Two/Enhanced_ABCU_Advising_Program.cpp:112-125 | a course is reported only for a query that is valid once upper-cased and a key of the map, and the course carries that number |
| EnhancedTwo.FindAfterLoad | Enhancement_Two/Enhanced_ABCU_Advising_Program.cpp:76-77 | after loading, a query for a number in any letter case reports the course of the last line that carries it |
| EnhancedTwo.Catalog.constructor | Enhancement_Two/Enhanced_ABCU_Advising_Program.cpp:156-157 | both containers start empty |
| EnhancedTwo.Catalog.Load | Enhancement_Two/Enhanced_ABCU_Advising_Program.cpp:41-89 | an unopenable file returns false and changes nothing; otherwise the result is true, the map is the last-wins index of the accepted lines, and the vector is those lines sorted by number, repeats included |
| EnhancedTwo.Catalog.ListCourses | Enhancement_Two/Enhanced_ABCU_Advising_Program.cpp:92-102 | nothing loaded exactly when the vector is empty; otherwise the vector as stored, which is sorted and a permutation of the accepted courses |
| EnhancedTwo.Catalog.CourseInfo | Enhancement_Two/Enhanced_ABCU_Advising_Program.cpp:105-143 | checks for an empty map first, rejects a query that is invalid once upper-cased before any lookup, reports not found on a miss, and otherwise gives the course with each prerequisite's exact map title or "Unknown" |
| Original.ParseLine | Enhancement_One/Original_ProjectTwo.cpp:44-63 | an accepted line gives a course whose every field is a non-empty comma-free token |
| Original.ParseLineKeepsAllTokens | Enhancement_One/Original_ProjectTwo.cpp:54-61 | without validation, a line of two or more tokens becomes `Course(tokens[0], tokens[1], tokens[2..])` |
| Original.CollectPrerequisites | Enhancement_One/Original_ProjectTwo.cpp:57-61 | the prerequisite loop keeps exactly the non-empty tokens, in order |
| Original.ParseCourseLine | Enhancement_One/Original_ProjectTwo.cpp:42-63 | one pass of the load loop computes what `ParseLine` says: only empty lines and lines of fewer than two tokens are skipped |
| Original.FirstCaseInsensitive | Enhancement_One/Original_ProjectTwo.cpp:101-105 | the position of the first course whose upper-cased number equals the key, or the end when there is none |
| Original.FirstWithNumber | Enhancement_One/Original_ProjectTwo.cpp:116-121 | the position of the first course whose number equals the code exactly, or the end when there is none |
| Original.ScanTitle | Enhancement_One/Original_ProjectTwo.cpp:114-121 | "Unknown" when no course has exactly the code; otherwise the title of the first course that has it |
| Original.Lookup | Enhancement_One/Original_ProjectTwo.cpp:91-133 | nothing loaded exactly for an empty vector; never an invalid format; a not-found report echoes the query; a found report is the first course whose number matches the query ignoring case, with each prerequisite in order paired with its scanned title |
| Original.ScanPrerequisites | Enhancement_One/Original_ProjectTwo.cpp:113-126 | the prerequisite loop with its inner scan pairs each prerequisite, in order, with the title of the first course having exactly that number, or "Unknown" |
| Original.LookupIgnoresCase | Enhancement_One/Original_ProjectTwo.cpp:97-105 | queries that upper-case to the same string get the same answer, apart from the query echoed in a not-found report |
| Original.LookupNotFound | Enhancement_One/Original_ProjectTwo.cpp:101-132 | on a non-empty vector, not found exactly when no course matches the query ignoring case |
| Original.Catalog.constructor | Enhancement_One/Original_ProjectTwo.cpp:146 | the vector starts empty |
| Original.Catalog.Load | Enhancement_One/Original_ProjectTwo.cpp:33-68 | an unopenable file returns false and changes nothing; otherwise the vector is every accepted line in file order and the result is true |
| Original.Catalog.ListCourses | Enhancement_One/Original_ProjectTwo.cpp:71-88 | nothing loaded for an empty vector; otherwise a permutation of `courses` sorted by number |
| Original.Catalog.CourseInfo | Enhancement_One/Original_ProjectTwo.cpp:91-133 | the nested scans compute the first case-insensitive match and, for each prerequisite in order, the title of the first exact match or "Unknown"; not found only after the whole vector is scanned |
| Compare.PatternNumberIsAlnumNumber | Enhancement_Two/Enhanced_ABCU_Advising_Program.cpp:35-38 | every four-letters-three-digits number also passes the 5-to-8-alphanumeric rule of Enhancement_One/Enhanced_ProjectTwo.cpp:30-36 |
| Compare.AlnumRuleIsLooser | Enhancement_One/Enhanced_ProjectTwo.cpp:30-36 | the alphanumeric rule accepts "csci101" and "CS1010", which the pattern rule rejects |
| Compare.RawSplitKeepsBlank | Enhancement_Two/Enhanced_ABCU_Advising_Program.cpp:22-32 | the non-trimming split keeps a blank after a comma: the second token of "CSCI101, Art" is " Art" |
| Compare.TrimmedSplitDropsBlank | Enhancement_One/Enhanced_ProjectTwo.cpp:39-50 | the trimming split drops it: the second token of "CSCI101, Art" is "Art" |
| Compare.RawLineKeepsBlank | Enhancement_Two/Enhanced_ABCU_Advising_Program.cpp:52-76 | so a line of a valid number, ", " and a comma-free title is accepted with the blank kept in its title: "CSCI101, Art" has title " Art" |
| Compare.TrimmedLineDropsBlank | Enhancement_One/Enhanced_ProjectTwo.cpp:68-99 | and the trimming variant accepts the same kind of line with the blank dropped: "CSCI101, Art" has title "Art" |
| Compare.ScanAgreesWithIndex | Enhancement_One/Original_ProjectTwo.cpp:115-121 | when course numbers are distinct, the first-exact-match scan and the last-wins map give a prerequisite the same title |
| Compare.ScanAndIndexDisagreeOnRepeats | Enhancement_One/Original_ProjectTwo.cpp:115-121 | with a repeated number the scan keeps the first title and the map the last |
| Compare.MapLookupRefinesScan | Enhancement_Two/Enhanced_ABCU_Advising_Program.cpp:105-143 | on distinct pattern-valid numbers and a query that is pattern-valid once upper-cased, the map lookup answers exactly as the original linear scan (Enhancement_One/Original_ProjectTwo.cpp:91-133) |
| Compare.FoundAgrees | Enhancement_Two/Enhanced_ABCU_Advising_Program.cpp:119-142 | the found case of that agreement: the same course, with the same prerequisite titles |

## Left out

- `main` and `displayMenu` in every file: the console menu loop reads a choice, dispatches and prints. The model starts at the functions the menu calls.
  - EnhancedOne.Catalog.CourseInfo accepts any query. The menu of Enhancement_One/Enhanced_ProjectTwo.cpp:219 passes it only non-empty, valid ones.
- Opening and reading the file: a file that cannot be opened is `None`, and a readable one is `Some` of its lines. Carriage returns at line ends are not treated specially.
- The text of every warning, error and success message. Each query reports a result constructor instead. The "None" rendering of an empty prerequisite list is a `Found` result with no prerequisites.
- The line counter of Enhancement_One/Enhanced_ProjectTwo.cpp:64-67: it only numbers the warnings.
- Locale behaviour of `std::isalnum`, `::toupper` and `std::regex`: characters are ASCII, as in the "C" locale.
  - `std::string`'s `<` is modelled on character codes.
- Text.Fields: `std::getline` yields no trailing empty field after a final delimiter, and this function does. In the same way `Fields("")` is `[""]`, while `getline` on an empty string yields no field at all. Every caller drops empty fields, so the tokens are the same in both cases.
- Courses.SortCourses: it is an insertion sort, not the algorithm of `std::sort`. Like `std::sort`, it promises only sortedness and permutation, and says nothing of the order among equal numbers.
- EnhancedOne.Catalog.CourseInfo: `std::unordered_map` iterates in an unspecified order. When two keys differ only in letter case and both match, the model says that some matching key's course is reported, not which one.
- The C++ functions take the containers by reference. The model keeps them as fields of `Catalog` and assigns them whole; there is no aliasing between containers.
- Enhancement_Three/CRUDOperations.py is not part of this model: it is a thin client of the pymongo library, and its input check is unrelated to the catalog.
