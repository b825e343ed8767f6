# Course site core, modelled in Dafny

The model covers the server side and two browser pages of a small course website.

- **Weekly units service** (`src/weekly/api/index.php`). A JSON-document store. `weeks.json` holds a list of week records and `comments.json` maps a week id to its comments. It has session gates: a logged-in user may comment, and only an admin may change weeks.
- **Four MySQL-backed CRUD services**. Each validates a JSON body or query parameters, then reads or writes tables through PDO:
  - resources with their comments (`src/resources/api/index.php`);
  - assignments with their comments (`src/assignments/api/index.php`);
  - discussion topics with their replies (`src/discussion/api/index.php`);
  - students, gated to administrators (`src/admin/api/index.php`).
- **The week editor page** (`src/weekly/admin.js`). It keeps a list of weeks and a form in memory, and adds, edits, deletes and reloads weeks.
- **The week list page** (`src/weekly/list.js`). It sorts weeks by start date and renders each as an HTML card, escaping user text.

## Layout

- `common.dfy` (`Common`): the shared pieces.
  - JSON values whose objects are ordered member lists, as PHP arrays are.
  - PHP's `isset`, `empty`, `??` and string conversion.
  - JavaScript's and PHP's `trim`, and ASCII `strtolower`.
  - An order-keeping `Filter` with its subsequence facts.
- `html.dfy` (`Html`): `htmlspecialchars` (ENT_QUOTES), with its decoder and round trip. `strip_tags` as PHP's five-state scanner (text, tag, `<?` block, `<!` declaration, `<!--` comment) with its nesting depth and quotes, which also drops NUL characters. `sanitizeInput` as trim, then strip, then escape.
- `json_text.dfy` (`JsonText`): `json_encode` and `json_decode` on text, with PHP's depth limit of 512, and the round trip `Decode(Encode(v)) == Some(v)`.
- `sql.dfy` (`Sql`): `filter_var(…, FILTER_VALIDATE_INT)` on 64-bit integers, the allow-list used for ORDER BY, and facts about rows kept in `created_at` order.
- `weekly_api.dfy` (`WeeklyApi`): `read_json_file` on the file text, plus a class `WeeklyStore` whose fields are the two decoded documents and whose methods are the request handlers.
- `resources_api.dfy`, `assignments_api.dfy`, `discussion_api.dfy`, `admin_api.dfy`: one class per service, with the tables as `seq` fields and the AUTO_INCREMENT counters as `int` fields. Each handler is split in two:
  - A pure *check* function gives `Refuse(response)` or `Proceed(values)` and follows the handler's validation branch by branch.
  - A method applies the write.

  An integrity predicate (`Consistent` or `Unique`: ids unique, references intact) is proved to be preserved by every write. The class invariant `Valid` also keeps comments and replies in `created_at` order.
- `weekly_admin.dfy` (`WeeklyAdmin`): the links textarea (`split('\n')`, `trim`, `filter`, `join('\n')`) and the list operations as functions. Class `WeekEditor` holds the page's `weeks`, `editMode` and form fields, and has one method per event handler.
- `weekly_list.dfy` (`WeeklyList`): `escapeHtml` as the chain of three `replaceAll` calls, proved equal to escaping each character and proved to undo. The card template, the empty-list message, and an in-place insertion sort of an `array` by start date.

Library calls whose behaviour is not the point are parameters:
- `FILTER_VALIDATE_URL` and `FILTER_VALIDATE_EMAIL`;
- `DateTime::createFromFormat`, `password_hash` and `password_verify`;
- `encodeURIComponent`;
- the clocks: `time()`, `Date.now()`, `CURRENT_TIMESTAMP`.

A statement that can fail takes a fault parameter: `execute()` returning false, or throwing a PDOException.

## Model

| member | source | states |
|---|---|---|
| Html.Sanitize | src/resources/api/index.php:562-572 | sanitizeInput's result contains no special character except the `&` of an entity, and is empty exactly when trimming and stripping tags (with PHP's strip_tags scanner) leaves nothing |
| Html.SanitizeValue | src/assignments/api/index.php:362-367 | the assignments and discussion sanitizeInput (identical in src/discussion/api/index.php:316-321): a non-string is returned as it is; a string is sanitized and escaped |
| Html.SanitizeDecodes | src/assignments/api/index.php:362-367 | decoding the entities of a sanitized string gives back the trimmed and tag-stripped input, so escaping loses nothing |
| Html.SanitizeClean | src/discussion/api/index.php:316-321 | input that is already trimmed and has no special character passes through sanitizeInput unchanged except that strip_tags drops its NUL characters |
| Html.HtmlSpecialCharsRoundTrip | src/resources/api/index.php:570 | htmlspecialchars with ENT_QUOTES is undone by its decoder for every string |
| Html.StripTagsLeavesNoTag | src/resources/api/index.php:569 | after strip_tags no position starts a tag (a `<` not followed by white space) |
| Html.StripTagsPlain | src/resources/api/index.php:569 | strip_tags leaves text without `<` as it is, except that it removes every NUL character |
| Html.CommentEnds | src/resources/api/index.php:569 | inside a `<!--` comment strip_tags copies nothing and resumes only after the first `-->`; a `>` without `--` before it does not end the comment |
| Html.CommentUnclosed | src/resources/api/index.php:569 | a comment that is never closed removes the rest of the input |
| Html.StripTagsComment | src/resources/api/index.php:569 | strip_tags of `<!-- a > b -->c` is `c` |
| Html.StripTagsPhpBlock | src/resources/api/index.php:569 | strip_tags of `<?x > 2; ?>` is empty: a `<?` block ends only at `?>` |
| Html.StripTagsNested | src/resources/api/index.php:569 | strip_tags of `<a <b "x>y">z` is `z`: a nested `<` raises the depth, and a `>` lowers it even inside quotes |
| Html.StripTagsText | src/resources/api/index.php:569 | strip_tags of `<b>x</b> < y` is `x < y`: tags go, text stays, and a `<` before a space is text |
| JsonText.DecodeEncode | src/weekly/api/index.php:8-16 | json_decode of json_encode gives back every well-formed value within the depth limit |
| Sql.FilterValidateInt | src/resources/api/index.php:116 | FILTER_VALIDATE_INT accepts only values in the 64-bit range and refuses arrays, objects, null and false |
| Sql.FilterAcceptsNumeral | src/resources/api/index.php:116-128 | every 64-bit integer written in decimal is accepted and read back as itself |
| Sql.ParseIntTextCanonical | src/resources/api/index.php:128 | an accepted text is the canonical decimal numeral of its value (optionally signed), so the `(int)` cast binds the validated number |
| Sql.AllowOr | src/assignments/api/index.php:91-93 | a value in the allow-list is used as it is; anything else, or no value, gives the fallback |
| Sql.FilterSorted | src/resources/api/index.php:345-348 | every selection of rows kept in created_at order is itself in created_at order |
| Sql.SubsequenceSorted | src/resources/api/index.php:345-348 | rows taken from a table in the table's order (a WHERE, a DELETE) keep its created_at order |
| Sql.AppendSorted | src/resources/api/index.php:399 | appending a row stamped no earlier than every existing row keeps the table in created_at order |
| WeeklyApi.ReadJsonFile | src/weekly/api/index.php:8-12 | read_json_file always yields an array |
| WeeklyApi.ReadWritten | src/weekly/api/index.php:8-16 | a document written by write_json_file is read back unchanged by read_json_file |
| WeeklyApi.ReadNonArray | src/weekly/api/index.php:10-11 | a file that does not decode, or decodes to a scalar, reads as the empty array |
| WeeklyApi.FindWeek | src/weekly/api/index.php:52-57 | the index of the first week whose id matches, and none exactly when no week matches |
| WeeklyApi.IndexOfWeek | src/weekly/api/index.php:87-94 | the foreach loop that stops at the first matching id finds exactly FindWeek's index |
| WeeklyApi.NewWeekKeys | src/weekly/api/index.php:68-74 | the created week has exactly the keys id, title, startDate, description and links, in this order |
| WeeklyApi.NewWeekFields | src/weekly/api/index.php:68-74 | the created id is `week_` followed by the clock; each text field defaults to "" and links to [] when absent |
| WeeklyApi.ArrayMergeGet | src/weekly/api/index.php:89 | after array_merge a key of the input reads as sent and every other key keeps the old week's value |
| WeeklyApi.ArrayMergeKeys | src/weekly/api/index.php:89 | array_merge keeps the old week's keys first and in their order |
| WeeklyApi.UpdatedWeekFields | src/weekly/api/index.php:81-99 | week_update overwrites exactly the sent fields of the week |
| WeeklyApi.WithoutWeek | src/weekly/api/index.php:105-108 | the weeks kept by week_delete are exactly those with another id, in their order, each with as many copies as before |
| WeeklyApi.ArrayKey | src/weekly/api/index.php:140 | a value used as an array key fails exactly when it is an array; a string is used as it is |
| WeeklyApi.FindComment | src/weekly/api/index.php:152-153 | the index of the first comment whose id is identical to the requested one, and none exactly when there is none |
| WeeklyApi.IndexOfComment | src/weekly/api/index.php:152-159 | the loop over a week's comments finds exactly FindComment's index |
| WeeklyApi.RemoveAt | src/weekly/api/index.php:154 | array_splice removes exactly one element: the others keep their order, and the multiset loses only that element |
| WeeklyApi.CommentDeleteRemovesFirst | src/weekly/api/index.php:147-164 | comment_delete removes the first comment with the id and nothing else |
| WeeklyApi.WeeklyStore.constructor | src/weekly/api/index.php:5-6 | the store starts with the two decoded documents |
| WeeklyApi.WeeklyStore.ListWeeks | src/weekly/api/index.php:45-48 | GET weeks answers the whole list, week by week |
| WeeklyApi.WeeklyStore.GetWeek | src/weekly/api/index.php:50-61 | GET week answers the first matching week, or 404 when there is none |
| WeeklyApi.WeeklyStore.WeekCreate | src/weekly/api/index.php:63-79 | non-admins get 403 and nothing changes; otherwise the new week is appended and returned |
| WeeklyApi.WeeklyStore.WeekUpdate | src/weekly/api/index.php:81-99 | non-admins get 403; the first matching week is merged with the input; with no match the answer is 404 and nothing changes |
| WeeklyApi.WeeklyStore.WeekDelete | src/weekly/api/index.php:101-117 | non-admins get 403; every week with the id and that week's comment list are removed |
| WeeklyApi.WeeklyStore.GetComments | src/weekly/api/index.php:121-126 | a week's comments ([] when it has none), or the whole document when the week id is falsy |
| WeeklyApi.WeeklyStore.CommentAdd | src/weekly/api/index.php:128-145 | users who are not logged in get 401; an array week_id is a fatal error; otherwise one comment by the session user is appended to that week's list and returned |
| WeeklyApi.WeeklyStore.CommentDelete | src/weekly/api/index.php:147-164 | users who are not logged in get 401; the first identical comment id is spliced out, or 404 when there is none |
| ResourcesApi.SanitizeInput | src/resources/api/index.php:562-572 | null becomes ""; a string is sanitized; the result is always escaped |
| ResourcesApi.MissingFieldsMeaning | src/resources/api/index.php:574-587 | the report names exactly the required fields that are unset or "", in the order they were required |
| ResourcesApi.MissingFieldsFilter | src/resources/api/index.php:577-581 | the report is the required list filtered by "missing" |
| ResourcesApi.ValidateRequiredFields | src/resources/api/index.php:574-587 | the loop builds the missing list, and valid holds exactly when no required field is missing |
| ResourcesApi.ListOrdering | src/resources/api/index.php:77-85 | the sort column is title or created_at; the order is ascending exactly when the trimmed, lower-cased order is "asc" |
| ResourcesApi.ListOrderingFallback | src/resources/api/index.php:77-83 | an allowed sort value, trimmed and lower-cased, is used; anything else falls back to created_at |
| ResourcesApi.Search | src/resources/api/index.php:76-93 | the listed rows are exactly those whose title or description contains the trimmed term, in table order |
| ResourcesApi.SearchAll | src/resources/api/index.php:90 | without a term every row is listed |
| ResourcesApi.FindResource | src/resources/api/index.php:123-131 | the fetched row has the id, and there is none exactly when no row has it |
| ResourcesApi.FindInserted | src/resources/api/index.php:171-184 | a resource inserted under a fresh id is then found under that id |
| ResourcesApi.CommentsOf | src/resources/api/index.php:345-348 | a resource's comments are exactly the comments that refer to it, in table order |
| ResourcesApi.WithoutResource | src/resources/api/index.php:307-309 | the DELETE keeps exactly the other resources, in their order |
| ResourcesApi.WithoutCommentsOf | src/resources/api/index.php:302-304 | the cascading DELETE keeps exactly the comments of other resources |
| ResourcesApi.WithoutComment | src/resources/api/index.php:445-447 | the DELETE keeps exactly the other comments |
| ResourcesApi.Apply | src/resources/api/index.php:218-250 | a sent column takes the sent value, an unsent one keeps its value, and the id and creation time never change |
| ResourcesApi.Patched | src/resources/api/index.php:250 | the UPDATE keeps the table's length and ids, and leaves rows with other ids alone |
| ResourcesApi.FindPatched | src/resources/api/index.php:250 | after the UPDATE the resource reads as the old row with the patch applied |
| ResourcesApi.InsertResourceConsistent | src/resources/api/index.php:171-179 | inserting under the auto-increment counter keeps ids positive, unique and below the counter, and every comment pointing at a resource |
| ResourcesApi.InsertCommentConsistent | src/resources/api/index.php:385-406 | a comment inserted after the existence check keeps every comment pointing at a resource |
| ResourcesApi.DeleteResourceConsistent | src/resources/api/index.php:298-311 | deleting a resource together with its comments keeps every comment pointing at a resource |
| ResourcesApi.DeleteWithoutCascadeBreaks | src/resources/api/index.php:302-304 | without the cascade, deleting a resource that has comments leaves dangling comments |
| ResourcesApi.DeleteCommentConsistent | src/resources/api/index.php:445-449 | deleting a comment keeps the tables consistent |
| ResourcesApi.UpdateResourceConsistent | src/resources/api/index.php:250-260 | updating a resource keeps the tables consistent |
| ResourcesApi.MemberRefers | src/resources/api/index.php:385-394 | in consistent tables every comment has an id below the counter and an existing resource |
| ResourcesApi.KeptResource | src/resources/api/index.php:307-309 | deleting one resource keeps every other one |
| ResourcesApi.CommentsListedInOrder | src/resources/api/index.php:345-348 | a comments table in created_at order (which `ResourceDb.Valid` keeps) lists each resource's comments in created_at order |
| ResourcesApi.CreateResourceCheckMeaning | src/resources/api/index.php:149-169 | createResource refuses missing fields (400 with the list), a link that is an array (fatal) and an invalid URL (400), in this order; it proceeds exactly otherwise, with the trimmed link and the escaped title and description ("" when absent) |
| ResourcesApi.UpdateResourceCheckRefusals | src/resources/api/index.php:196-248 | updateResource refuses a missing or invalid id (400), an unknown id (404) and an update with no fields (400), in this order |
| ResourcesApi.UpdateResourceCheckProceeds | src/resources/api/index.php:196-248 | an accepted update names an existing resource and patches exactly the sent fields: title and link when set, description when present even if null; the link is trimmed and a valid URL |
| ResourcesApi.CreateCommentCheck | src/resources/api/index.php:365-394 | an accepted comment refers to an existing resource |
| ResourcesApi.CreateCommentCheckRefusals | src/resources/api/index.php:365-394 | createComment refuses missing fields (400 with the list), an invalid resource id (400) and an unknown resource (404), in this order |
| ResourcesApi.CreateCommentCheckProceeds | src/resources/api/index.php:365-397 | createComment proceeds exactly when every check passes, with the validated resource id and escaped author and text |
| ResourcesApi.ResourceDb.constructor | src/resources/api/index.php:75 | the service starts with empty tables that are consistent |
| ResourcesApi.ResourceDb.GetResource | src/resources/api/index.php:115-144 | an invalid id gets 400; otherwise the row with that id, or 404 |
| ResourcesApi.ResourceDb.ListResources | src/resources/api/index.php:75-110 | the rows that match the search, in table order, and the ORDER BY the parameters pick |
| ResourcesApi.ResourceDb.CreateResource | src/resources/api/index.php:149-191 | a refusal changes nothing; a failed INSERT throws and the router answers 500 "Database error occurred." (lines 527-532) with nothing changed; otherwise one row with the next id is appended and 201 carries that id; consistency is preserved |
| ResourcesApi.ResourceDb.Update | src/resources/api/index.php:196-271 | a refusal changes nothing; a failed UPDATE throws and the router answers 500 "Database error occurred." (lines 527-532) with nothing changed; otherwise the resource is patched; consistency is preserved |
| ResourcesApi.ResourceDb.DeleteResource | src/resources/api/index.php:276-325 | an invalid id (400), an unknown id (404) or a rolled-back transaction (500) changes nothing; otherwise the resource and all its comments are gone |
| ResourcesApi.ResourceDb.GetComments | src/resources/api/index.php:335-360 | an invalid id gets 400; otherwise exactly that resource's comments, in created_at order |
| ResourcesApi.ResourceDb.CreateComment | src/resources/api/index.php:365-418 | a refusal changes nothing; a failed INSERT throws and the router answers 500 "Database error occurred." (lines 527-532) with nothing changed; otherwise one comment with the next id is appended; consistency and created_at order are preserved |
| ResourcesApi.ResourceDb.DeleteComment | src/resources/api/index.php:423-460 | an invalid id (400) or an unknown id (404) changes nothing, and so does a failed DELETE, which throws and is answered 500 "Database error occurred." by the router (lines 527-532); otherwise exactly that comment is removed |
| AssignmentsApi.ValidateDateShape | src/assignments/api/index.php:369-372 | whatever the parser, an accepted date is ten characters in the form YYYY-MM-DD, zero-padded, and names a real calendar day |
| AssignmentsApi.PaddedValue | src/assignments/api/index.php:371 | the formatted digits of a date part read back as that number |
| AssignmentsApi.ValidateAllowedValue | src/assignments/api/index.php:374-377 | true exactly when the allowed list is an array holding a value identical to the given one |
| AssignmentsApi.AllowedValueStrict | src/assignments/api/index.php:374-377 | the strict `in_array`: every listed value is accepted and nothing else is, so `true` does not match a string, a numeral string does not match its integer or the reverse, `false` matches neither null nor 0, and a non-array list accepts nothing |
| AssignmentsApi.FilesOnRead | src/assignments/api/index.php:107 | a files column that is NULL, "" or "0" reads as [] |
| AssignmentsApi.FilesRoundTrip | src/assignments/api/index.php:107-138 | files stored as json_encode of array_values read back as that list |
| AssignmentsApi.DecodeFiles | src/assignments/api/index.php:106-108 | the loop decodes every row's files in place and changes nothing else |
| AssignmentsApi.ListOrdering | src/assignments/api/index.php:91-98 | the sort column is one of title, due_date or created_at; the order is descending exactly when the lower-cased order is "desc" |
| AssignmentsApi.Search | src/assignments/api/index.php:81-89 | the listed rows are exactly those whose title or description contains the trimmed term, in table order |
| AssignmentsApi.SearchBlank | src/assignments/api/index.php:81 | a missing or blank term lists every row |
| AssignmentsApi.FindAssignment | src/assignments/api/index.php:116-121 | the fetched row has the id text, and there is none exactly when no row has it |
| AssignmentsApi.CommentsOf | src/assignments/api/index.php:240 | an assignment's comments are exactly those that refer to it, in table order |
| AssignmentsApi.WithoutAssignment | src/assignments/api/index.php:223-225 | the DELETE keeps exactly the other assignments |
| AssignmentsApi.WithoutCommentsOf | src/assignments/api/index.php:219-221 | the cascading DELETE keeps exactly the comments of other assignments |
| AssignmentsApi.WithoutComment | src/assignments/api/index.php:289-292 | the DELETE keeps exactly the other comments |
| AssignmentsApi.Apply | src/assignments/api/index.php:172-195 | an update keeps id and created_at, sets updated_at, gives each sent column the sent value and leaves unsent columns alone |
| AssignmentsApi.Patched | src/assignments/api/index.php:195 | the UPDATE keeps length and ids and leaves other rows alone |
| AssignmentsApi.FindPatched | src/assignments/api/index.php:195 | after the UPDATE the assignment reads as the old row with the patch applied |
| AssignmentsApi.InsertAssignmentConsistent | src/assignments/api/index.php:140-149 | inserting under the counter keeps ids unique and below the counter, and the tables consistent |
| AssignmentsApi.InsertCommentConsistent | src/assignments/api/index.php:255-268 | a comment inserted after the existence check keeps every comment pointing at an assignment |
| AssignmentsApi.UpdateConsistent | src/assignments/api/index.php:195-201 | updating an assignment keeps the tables consistent |
| AssignmentsApi.DeleteAssignmentConsistent | src/assignments/api/index.php:216-227 | deleting an assignment with its comments keeps the tables consistent |
| AssignmentsApi.DeleteCommentConsistent | src/assignments/api/index.php:289-293 | deleting a comment keeps the tables consistent |
| AssignmentsApi.MemberRefers | src/assignments/api/index.php:255-258 | every comment of consistent tables refers to an existing assignment |
| AssignmentsApi.KeptAssignment | src/assignments/api/index.php:223-225 | deleting one assignment keeps every other one |
| AssignmentsApi.CommentsListedInOrder | src/assignments/api/index.php:240 | a comments table in created_at order (which `AssignmentDb.Valid` keeps) lists each assignment's comments in created_at order |
| AssignmentsApi.CreateAssignmentRefusals | src/assignments/api/index.php:128-136 | a blank title is refused first, then a blank description (400 each), then a due date that is a non-empty string and not a real YYYY-MM-DD day (400 "due_date must be YYYY-MM-DD"); an array due date is a TypeError |
| AssignmentsApi.CreateAssignmentProceeds | src/assignments/api/index.php:128-138 | an accepted assignment has a non-empty escaped title and description, an array of files (the sent one, or [] when unset) and a due date that is null, "" or valid |
| AssignmentsApi.UpdateAssignmentRefusals | src/assignments/api/index.php:163-193 | a missing id (400), an unknown id (404), a due date that is a non-empty string and not a real day (400 "Invalid due_date format (YYYY-MM-DD)") or an array (TypeError), and an update with no title, description or due date and no files array (400) are refused, in this order |
| AssignmentsApi.UpdateAssignmentProceeds | src/assignments/api/index.php:163-193 | an accepted update names an existing assignment and patches exactly the sent columns; files only when they are an array; a due date of "" becomes NULL, any other one is valid |
| AssignmentsApi.CreateCommentRefusals | src/assignments/api/index.php:247-258 | a falsy assignment_id is refused first (400); then an array text is a fatal TypeError in `trim`; then a text that is missing, or whose sanitized string form trims to "" (`false`, `"<b> </b>"`), is refused with 400 "text is required"; then an assignment_id no assignment has gives 404 |
| AssignmentsApi.CreateCommentProceeds | src/assignments/api/index.php:247-258 | an accepted comment refers to an existing assignment, has text that is not an array and is non-blank after trimming, and has the author "Student" when none is sent |
| AssignmentsApi.AssignmentDb.constructor | src/assignments/api/index.php:57-65 | the service starts with empty, consistent tables |
| AssignmentsApi.AssignmentDb.ListAssignments | src/assignments/api/index.php:76-111 | the matching rows, each with its files decoded, and the chosen ORDER BY |
| AssignmentsApi.AssignmentDb.GetAssignment | src/assignments/api/index.php:113-126 | a falsy id gets 400; otherwise the row with its files decoded, or 404 |
| AssignmentsApi.AssignmentDb.CreateAssignment | src/assignments/api/index.php:128-161 | a refusal changes nothing; a PDOException gives 500 with its message and changes nothing; otherwise one row is appended under the next id and echoed with 201 |
| AssignmentsApi.AssignmentDb.UpdateAssignment | src/assignments/api/index.php:163-206 | a refusal or a PDOException changes nothing; otherwise the assignment is patched and stamped |
| AssignmentsApi.AssignmentDb.DeleteAssignment | src/assignments/api/index.php:208-233 | a falsy id (400), an unknown id (404) or a rolled-back transaction (500) changes nothing; otherwise the assignment and all its comments are gone |
| AssignmentsApi.AssignmentDb.GetComments | src/assignments/api/index.php:237-245 | a falsy id gets 400; otherwise exactly that assignment's comments, in created_at order |
| AssignmentsApi.AssignmentDb.CreateComment | src/assignments/api/index.php:247-279 | a refusal or a PDOException changes nothing; otherwise one comment is appended under the next id; consistency and created_at order are preserved |
| AssignmentsApi.AssignmentDb.DeleteComment | src/assignments/api/index.php:281-297 | a falsy id (400), an unknown id (404) or a PDOException changes nothing; otherwise exactly that comment is removed |
| DiscussionApi.FirstEmptyMeaning | src/discussion/api/index.php:128-130 | no field is reported exactly when none of the required fields is empty; a reported field is the first empty one |
| DiscussionApi.RequireFields | src/discussion/api/index.php:128-130 | the foreach loop stops at exactly the first empty field |
| DiscussionApi.FirstEmptyOfFour | src/discussion/api/index.php:223-225 | the check over four fields reports the first one that is empty |
| DiscussionApi.ListOrdering | src/discussion/api/index.php:98-105 | the sort column is subject, author or created_at (the fallback); the order is ascending exactly when the lower-cased order is "asc" |
| DiscussionApi.Search | src/discussion/api/index.php:88-92 | an empty or "0" term lists every topic; otherwise exactly the topics whose subject, message or author contains the trimmed term, in table order |
| DiscussionApi.FindTopic | src/discussion/api/index.php:118-123 | the fetched topic has the id, and there is none exactly when no topic has it |
| DiscussionApi.RepliesOf | src/discussion/api/index.php:214 | a topic's replies are exactly those that refer to it, in table order |
| DiscussionApi.WithoutTopic | src/discussion/api/index.php:198-200 | the DELETE keeps exactly the other topics |
| DiscussionApi.WithoutRepliesOf | src/discussion/api/index.php:194-196 | the cascading DELETE keeps exactly the replies of other topics |
| DiscussionApi.WithoutReply | src/discussion/api/index.php:264-267 | the DELETE keeps exactly the other replies |
| DiscussionApi.Apply | src/discussion/api/index.php:164-172 | an update stores the sent subject and message, leaves unsent columns alone, and keeps the id, author and creation time |
| DiscussionApi.Patched | src/discussion/api/index.php:172 | the UPDATE applies the patch to the topic with the key, keeps length and ids, and leaves other topics alone |
| DiscussionApi.FindPatched | src/discussion/api/index.php:172 | after the UPDATE, the topic with the key reads as the patch applied to its old row |
| DiscussionApi.InsertTopicConsistent | src/discussion/api/index.php:137-149 | inserting a topic whose id is not taken keeps topic ids unique |
| DiscussionApi.InsertDuplicateTopicBreaks | src/discussion/api/index.php:140 | without the 409 check, a duplicate id would break uniqueness |
| DiscussionApi.InsertReplyConsistent | src/discussion/api/index.php:232-249 | a reply for an existing topic with a fresh id keeps the tables consistent |
| DiscussionApi.UpdateTopicConsistent | src/discussion/api/index.php:172-177 | updating a topic keeps the tables consistent |
| DiscussionApi.DeleteTopicConsistent | src/discussion/api/index.php:192-201 | deleting a topic with its replies keeps the tables consistent |
| DiscussionApi.DeleteReplyConsistent | src/discussion/api/index.php:264-267 | deleting a reply keeps the tables consistent |
| DiscussionApi.RepliesListedInOrder | src/discussion/api/index.php:214 | a replies table in created_at order (which `DiscussionDb.Valid` keeps) lists each topic's replies in created_at order |
| DiscussionApi.CreateTopicOutcomes | src/discussion/api/index.php:127-140 | createTopic refuses the first empty field (400), then a taken id (409); an accepted topic has four non-empty sanitized fields and a fresh id |
| DiscussionApi.TopicPatch | src/discussion/api/index.php:164-168 | the patch sets subject and message exactly when they are sent, sanitized |
| DiscussionApi.UpdateTopicRefusals | src/discussion/api/index.php:156-170 | an empty topic_id (400), an unknown topic (404) and an update without fields (400) are refused, in this order |
| DiscussionApi.UpdateTopicProceeds | src/discussion/api/index.php:156-170 | an accepted update names an existing topic and patches at least one sent field |
| DiscussionApi.CreateReplyOutcomes | src/discussion/api/index.php:222-240 | createReply refuses the first empty field (400), then a missing parent topic (404), then a taken reply id (409); an accepted reply has an existing parent and a fresh id |
| DiscussionApi.DiscussionDb.constructor | src/discussion/api/index.php:64-72 | the service starts with empty, consistent tables |
| DiscussionApi.DiscussionDb.ListTopics | src/discussion/api/index.php:83-113 | the matching topics in table order, and the chosen ORDER BY |
| DiscussionApi.DiscussionDb.GetTopic | src/discussion/api/index.php:115-125 | a falsy id gets 400; otherwise the topic with that id, or 404 |
| DiscussionApi.DiscussionDb.CreateTopic | src/discussion/api/index.php:127-154 | a refusal or a PDOException changes nothing; otherwise the topic is appended and its id echoed with 201 |
| DiscussionApi.DiscussionDb.UpdateTopic | src/discussion/api/index.php:156-182 | a refusal or a PDOException changes nothing; otherwise the topic is patched, and the topic with the key reads back with the sent, sanitized subject and message |
| DiscussionApi.DiscussionDb.DeleteTopic | src/discussion/api/index.php:184-208 | a falsy id (400), an unknown id (404) or a rolled-back transaction (500) changes nothing; otherwise the topic and all its replies are gone |
| DiscussionApi.DiscussionDb.GetReplies | src/discussion/api/index.php:211-220 | a falsy topic id answers [] (as the router does); otherwise exactly that topic's replies, in created_at order |
| DiscussionApi.DiscussionDb.CreateReply | src/discussion/api/index.php:222-254 | a refusal or a PDOException changes nothing; otherwise the reply is appended |
| DiscussionApi.DiscussionDb.DeleteReply | src/discussion/api/index.php:256-272 | a falsy id (400), an unknown id (404) or a PDOException changes nothing; otherwise exactly that reply is removed |
| AdminApi.Gate | src/admin/api/index.php:30-37 | a request passes exactly when a user id is set and the role is exactly "admin"; every other request gets 403 "Access denied" |
| AdminApi.SanitizeInput | src/admin/api/index.php:621-631 | an array fails (trim's TypeError); a string is sanitized; the result is escaped |
| AdminApi.StudentJson | src/admin/api/index.php:102 | a listed student never carries the password column |
| AdminApi.StrLen | src/admin/api/index.php:406 | strlen counts UTF-8 bytes: at least one for each character, at most four |
| AdminApi.StrLenAscii | src/admin/api/index.php:406 | on ASCII text strlen is the character count |
| AdminApi.SortColumn | src/admin/api/index.php:94-97 | the sort column is name, student_id or email, with name as the fallback |
| AdminApi.Search | src/admin/api/index.php:89-105 | with no search every student is listed; otherwise exactly those whose lower-cased name, id or email contains the lower-cased term, in table order |
| AdminApi.FindStudent | src/admin/api/index.php:141-150 | the fetched student has the id, and there is none exactly when no student has it |
| AdminApi.WithoutStudent | src/admin/api/index.php:354-358 | the DELETE keeps exactly the other students |
| AdminApi.Apply | src/admin/api/index.php:297-303 | an update sets exactly the sent name and email and keeps id, password and creation time |
| AdminApi.Patched | src/admin/api/index.php:303 | the UPDATE applies the patch to the student with the id and leaves the others alone |
| AdminApi.WithPassword | src/admin/api/index.php:446-448 | only the named student's password changes |
| AdminApi.InsertUnique | src/admin/api/index.php:200-207 | the 409 check on id and email is what keeps both columns unique when a student is inserted |
| AdminApi.UpdateUnique | src/admin/api/index.php:283-294 | the check that no other student has the new email keeps both columns unique |
| AdminApi.OwnEmailNotTaken | src/admin/api/index.php:285 | re-sending a student's own email is not a conflict |
| AdminApi.DeleteUnique | src/admin/api/index.php:354-358 | deleting a student keeps both columns unique |
| AdminApi.PasswordUnique | src/admin/api/index.php:446-448 | changing a password keeps both columns unique |
| AdminApi.SanitizedDraft | src/admin/api/index.php:189-192 | the three text fields fail exactly when one is an array; otherwise each is sanitized and the password is taken as sent |
| AdminApi.CreateStudentOutcomes | src/admin/api/index.php:179-207 | createStudent refuses a missing field (400), then an invalid email (400), then a taken id or email (409); an accepted student has all four fields, a fresh id and a fresh, valid email |
| AdminApi.CreateStudentEmailFirst | src/admin/api/index.php:194-205 | an invalid email is refused before the table is read, so the answer does not depend on the table |
| AdminApi.StudentPatch | src/admin/api/index.php:272-274 | the patch sets name and email exactly when they are sent, sanitized, and fails when one of them is an array |
| AdminApi.UpdateStudentRefusals | src/admin/api/index.php:251-294 | a missing student_id (400), an unknown student (404), an update without fields (400) and a new email another student has (409 "Email already taken") are refused, in this order |
| AdminApi.UpdateStudentProceeds | src/admin/api/index.php:251-294 | an accepted update names an existing student, sets at least one field, and its email is not taken by another student |
| AdminApi.ChangePasswordRefusals | src/admin/api/index.php:388-432 | an empty field is refused first, then a new password shorter than 8 bytes, then an unknown student, then a current password that does not verify against the stored hash; every answer has status 200 with success false |
| AdminApi.ChangePasswordChecksFirst | src/admin/api/index.php:392-411 | these two refusals come before the table is read, so they do not depend on it |
| AdminApi.ChangePasswordProceeds | src/admin/api/index.php:388-433 | an accepted change names an existing student, has a new password of at least 8 bytes, and its current password verifies against the stored hash |
| AdminApi.StudentDb.constructor | src/admin/api/index.php:62 | the service starts with an empty students table |
| AdminApi.StudentDb.ListStudents | src/admin/api/index.php:85-128 | a request the gate refuses gets 403; otherwise the matching students without passwords, and the chosen column |
| AdminApi.StudentDb.GetStudent | src/admin/api/index.php:139-166 | a request the gate refuses gets 403; otherwise the student with that id, or 404 |
| AdminApi.StudentDb.CreateStudent | src/admin/api/index.php:179-239 | a gate refusal, a check refusal or a failed INSERT changes nothing; otherwise the student is appended with the hashed password; uniqueness is preserved |
| AdminApi.StudentDb.UpdateStudent | src/admin/api/index.php:251-320 | a refusal or a failed UPDATE changes nothing; otherwise the student is patched; uniqueness is preserved |
| AdminApi.StudentDb.DeleteStudent | src/admin/api/index.php:330-376 | an empty id, an unknown id or a failed DELETE changes nothing (status 200, success false); otherwise exactly that student is removed |
| AdminApi.StudentDb.ChangePassword | src/admin/api/index.php:388-462 | a refusal or a failed UPDATE changes nothing; otherwise only that student's password becomes the new hash |
| WeeklyAdmin.Split | src/weekly/admin.js:71 | split gives at least one piece, and no piece holds the separator |
| WeeklyAdmin.JoinSplit | src/weekly/admin.js:71 | joining the pieces of a split gives back the text |
| WeeklyAdmin.SplitJoin | src/weekly/admin.js:71-109 | splitting a join of separator-free pieces gives back the pieces |
| WeeklyAdmin.JsTrimTrimmed | src/weekly/admin.js:67-71 | trim leaves no white space at either end |
| WeeklyAdmin.TrimEach | src/weekly/admin.js:71 | map(trim) trims every line and keeps the count |
| WeeklyAdmin.ParseLinks | src/weekly/admin.js:70-72 | an empty textarea gives []; every link is non-empty, trimmed and one line; the links are the trimmed lines in order, with exactly the non-empty ones kept, each as many times as it occurs |
| WeeklyAdmin.LinksRoundTrip | src/weekly/admin.js:70-72 | reading back the textarea that edit mode fills in (line 109) gives back the same links |
| WeeklyAdmin.FindIndex | src/weekly/admin.js:77 | findIndex gives the first matching position, and -1 exactly when no week matches |
| WeeklyAdmin.Find | src/weekly/admin.js:102 | find gives a week with the id exactly when there is one |
| WeeklyAdmin.Submitted | src/weekly/admin.js:67-72 | the saved record has the trimmed title and description, the start date as entered and the parsed links |
| WeeklyAdmin.Saved | src/weekly/admin.js:74-85 | adding appends the submitted week with a fresh id; editing replaces the first week with the form's id at its position and keeps the others; editing an id no week has changes nothing |
| WeeklyAdmin.EditKeepsIds | src/weekly/admin.js:74-80 | editing never changes the list of ids |
| WeeklyAdmin.AppendedLast | src/weekly/admin.js:82-85 | adding keeps the old weeks as a prefix, and the new id is found afterwards |
| WeeklyAdmin.Removed | src/weekly/admin.js:96 | delete keeps exactly the weeks with another id, in their order, each with as many copies as before |
| WeeklyAdmin.Loaded | src/weekly/admin.js:104-109 | edit mode fills the form with the week's fields and its links joined by newlines |
| WeeklyAdmin.LoadedSubmitted | src/weekly/admin.js:101-109 | submitting a freshly loaded form gives back the week, for every week the form can produce |
| WeeklyAdmin.SubmittedSaveable | src/weekly/admin.js:67-72 | every submitted week is one the form reproduces |
| WeeklyAdmin.EditUnchanged | src/weekly/admin.js:74-80 | loading a week into the form and saving it without changes leaves the list unchanged |
| WeeklyAdmin.WeekEditor.constructor | src/weekly/admin.js:2-3 | the page starts with no weeks, not editing, and an empty form |
| WeeklyAdmin.WeekEditor.ResetForm | src/weekly/admin.js:55-62 | the form is cleared and edit mode ends; the weeks are kept |
| WeeklyAdmin.WeekEditor.HandleAddOrEditWeek | src/weekly/admin.js:64-89 | the weeks become Saved of the old state, and the form is reset |
| WeeklyAdmin.WeekEditor.HandleTableClick | src/weekly/admin.js:91-112 | a delete button removes the weeks with its id and resets the form if that week was being edited; an edit button for a week still present loads it into the form; otherwise nothing changes; the editing invariant is preserved |
| WeeklyAdmin.WeekEditor.HandleCancelEdit | src/weekly/admin.js:114-116 | cancel resets the form and keeps the weeks |
| WeeklyAdmin.WeekEditor.LoadWeeksData | src/weekly/admin.js:118-131 | the weeks become the fetched list, or [] when the fetch fails; the form is untouched |
| WeeklyList.ReplaceAll | src/weekly/list.js:47-49 | replaceAll leaves a string without the character unchanged |
| WeeklyList.ReplaceAllChars | src/weekly/list.js:47-49 | every character of the result comes from the replacement or is a kept character of the input |
| WeeklyList.ReplaceAllConcat | src/weekly/list.js:47-49 | replaceAll distributes over concatenation |
| WeeklyList.ChainIsEscapeEach | src/weekly/list.js:46-49 | because `&` is replaced first, the three replaceAll calls escape each character exactly once |
| WeeklyList.ChainNoAngles | src/weekly/list.js:47-49 | no `<` or `>` is left after the chain |
| WeeklyList.UnescapeEscapeEach | src/weekly/list.js:44-50 | the escaping is undone by reading the three entities back |
| WeeklyList.EscapeHtml | src/weekly/list.js:44-50 | a missing or empty value gives ""; otherwise the text with each `&`, `<`, `>` escaped, which unescapes to the input and contains no angle bracket |
| WeeklyList.EscapePlain | src/weekly/list.js:44-50 | text without `&`, `<` or `>` is left as it is |
| WeeklyList.LinkItem | src/weekly/list.js:10 | each link item is non-empty |
| WeeklyList.LinksHtml | src/weekly/list.js:9-11 | the joined items are empty exactly when there are no links |
| WeeklyList.LinksList | src/weekly/list.js:9-20 | the links list is left out exactly when links are missing or empty; otherwise the items are wrapped in `<ul class="links-list">` |
| WeeklyList.ArticleWithoutLinks | src/weekly/list.js:8-28 | a card is the same as the card without a links field exactly when the week has no links |
| WeeklyList.RenderWeeks | src/weekly/list.js:58-63 | no weeks gives the "No weeks available yet." paragraph; otherwise the cards joined in order |
| WeeklyList.LexTotal | src/weekly/list.js:111-113 | any two start dates are compared one way or the other |
| WeeklyList.LexTrans | src/weekly/list.js:111-113 | the start-date comparison is transitive |
| WeeklyList.BeforeOrdering | src/weekly/list.js:111-113 | ordering weeks by start date (missing as "") is total and transitive |
| WeeklyList.AdjacentSortedIsSorted | src/weekly/list.js:111-113 | for a transitive order, neighbours in order means the whole list is in order |
| WeeklyList.Sort | src/weekly/list.js:111-113 | sorting in place yields an ordered permutation of the array |
| WeeklyList.LoadAndRender | src/weekly/list.js:109-115 | the weeks are sorted in place by start date as a permutation, and the page shows RenderWeeks of the sorted list |

## Left out

- **Routers.** The dispatch on method and action is not modelled, nor the router-level 400s for falsy ids:
  - resources: router lines 469-517;
  - assignments: lines 300-347, which include the listing of all comments when no assignment_id is given (lines 311-313);
  - admin: lines 469-576.

  The handlers are modelled with the parameters the routers pass them. There is one exception: the discussion replies router (lines 280-282) is folded into `DiscussionDb.GetReplies`.
- **The admin file does not parse as PHP.** A second `<?php` opens at line 27 inside the already open PHP block, line 98 ends in `?` without a value, and the router at lines 469-576 has unbalanced braces. Its handlers are modelled as written, as if the file ran. Because line 98 is incomplete, the list's order direction is not modelled.
- **Status codes of admin deleteStudent and changePassword.** These functions return arrays instead of sending responses. The router sends them with status 200, so every outcome, including the errors, is modelled as status 200 with success false.
- **PDO errors.** A failed statement is the `fault`/`ok` parameter, and tables change only when the statement succeeds.
  - `src/resources/api/index.php` and `src/admin/api/index.php` take their connection from a `Database.php` file, which is not part of this model.
  - The resources service is modelled in exception mode, PHP 8's default and the mode `src/db.php` sets. A failed INSERT, UPDATE or DELETE then throws, and the router's catch (lines 527-532) answers 500 "Database error occurred.". The handlers' `else` branches ("Failed to create resource." and the like) are never reached, so they are not modelled. The rollback of deleteResource (lines 317-324) is its own catch and answers "Failed to delete resource.".
  - In silent mode, which the model does not cover, those `else` branches would answer instead, and a failed DELETE in deleteResource would be committed and answered 200.
  - The admin service is modelled with the handlers' own failure replies.
- **MySQL value handling.** Columns are compared with their values as exact text or integer:
  - coercion such as `'05' = 5` is not modelled;
  - in the assignments service this matters for consistency. createComment checks the assignment with `WHERE id = :id` against the integer column (lines 255-258), so "05" finds assignment 5 and is stored as the text "05" in `assignment_id`. deleteAssignment's `DELETE FROM comments WHERE assignment_id = :id` (lines 219-221) compares text, so deleting assignment 5 keeps that comment, and listing the comments of "5" never shows it. The model answers 404 to "05": `Consistent` and the rows that rest on it are claimed for canonical id texts only;
  - collation and case rules of `LIKE` are not modelled. `LIKE '%t%'` is modelled as substring containment and `%` or `_` inside the term are not wildcards;
  - `VARCHAR` truncation, fetched column types and timestamp formats are not modelled.
- **Auto-increment ids.** AUTO_INCREMENT is a counter that grows by one on each successful insert, with no gaps from failed inserts. Discussion topics and replies are keyed by the client-given `topic_id` and `reply_id`, and any other id column of those tables is not modelled.
- **Timestamps.** `CURRENT_TIMESTAMP`, `time()` and `Date.now()` are parameters. The create methods of comments and replies require a clock that does not run backwards (`StampedBy`). Under it the `Valid` invariant of each SQL service keeps its comments or replies table in `created_at` order, so listing in table order is `ORDER BY created_at ASC`. Rows with equal timestamps are listed in insertion order, one of the orders MySQL may return. A clock that runs backwards is not modelled. Ordering by other columns is done by the database and only the chosen ORDER BY is modelled.
- **rowCount in the admin service.** The rowCount checks of SELECT statements are modelled as "a row matches", which is what MySQL's buffered queries report.
- **Weekly JSON store.** Floats and 64-bit integers in JSON are not modelled. Numeric-string keys, which PHP turns into integers, are not modelled. `JSON_PRETTY_PRINT` whitespace is not modelled. The store holds the weeks as objects (`seq<Obj>`). A weeks.json element that is a scalar or a list is not modelled: `read_json_file` would keep it, GET weeks would list it, and the id searches would read `$w['id']` from it, which PHP answers with null or, for a string element, an offset error.
- **Weekly file writes.** File locking and the two separate writes of week_delete are not modelled. Id uniqueness from `time()` is not guaranteed by the source and not claimed.
- **get_input.** The fallback to `$_POST` when the body is not a JSON array (`src/weekly/api/index.php:18-22`) is not modelled. Handlers take the decoded input object.
- **strip_tags on bytes.** PHP's strip_tags scans bytes; the model scans characters. The result is the same, because every character the scanner tests for is ASCII and no byte of a multi-byte UTF-8 character is ASCII. The allow-list argument is not modelled, because no handler passes one.
- **ENT_SUBSTITUTE and invalid UTF-8.** Strings are sequences of Unicode scalar values, so invalid byte sequences do not arise.
- **Case conversion.** `strtolower` and SQL `LOWER` are ASCII case folding.
- **Array-to-string conversion.** An array bound as a statement parameter or cast to a string becomes "Array" (`Common.PhpString`). The warning PHP emits with it is not modelled.
- **Library functions.** `password_hash`, `password_verify`, `FILTER_VALIDATE_URL`, `FILTER_VALIDATE_EMAIL` and `DateTime::createFromFormat` are parameters. Their own behaviour, and the randomness of the hash, are left out.
- **Headers, CORS and OPTIONS.** Preflight answers, headers and `sendResponse`'s JSON output are outside the model. Responses are modelled as a status plus a JSON value.
- **DOM and network in the JS pages.** DOM rendering is not modelled: `createWeekRow`, `renderTable`, `focus`, and the event listener wiring. Network and dialogs are not modelled: `fetchWeeks`, `onEdit`, `onDelete`, `confirm` and `alert`. The result of `loadWeeksData`'s fetch is a parameter.
- **Week field types in admin.js.** These weeks are well-typed records with string fields and a list of links. A JSON file with other shapes is not modelled. A clicked button's `data-id` is taken as present.
- **Week field types in list.js.** These weeks have a string id and optional string fields. Non-string falsy values (0, false) passed to `escapeHtml`, and an undefined id rendered as "undefined", are not modelled. `encodeURIComponent` is a parameter.
- WeeklyList.LexLe: `localeCompare` is modelled as lexicographic order of Unicode code points, because locale collation rules are not available. JavaScript compares UTF-16 code units, which orders characters above U+FFFF differently against U+E000 to U+FFFF.
- WeeklyList.Sort: the contract states an ordered permutation but not stability, although `Array.prototype.sort` is stable.
