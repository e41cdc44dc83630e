# Impossible Trinity — a Dafny model of its listing, voting and transfer logic

The repository holds two implementations of a catalogue of "impossible
trinities": three desirable properties of which at most two can hold at once.
One is a standalone Flask application with a small JavaScript front end. The
other is a WordPress plugin with AJAX endpoints, a page script, a meta box and
CSV export/import. This project models their core behaviour as pure Dafny
functions over immutable data and proves what each piece promises:

- **Paging.** `paging.dfy` describes a page as the slice `[(p-1)*n, p*n)` of an
  ordered list. SQLAlchemy's `paginate` and WordPress's `WP_Query` both
  paginate this way.
- **Flask app.** `flask_models.dfy` and `flask_app.dfy` model the tables and
  their integrity, each route as a store transition that commits or refuses,
  the newest-first listing, and the `/api/its` JSON.
- **JavaScript strings.** `js_text.dfy` models a JavaScript string as UTF-16
  code units, which is what the card preview's `length` and `slice` count.
- **Standalone card grid.** `card_loader.dfy` splits the grid's infinite-scroll
  loader into the synchronous trigger and the settle continuation. It proves
  that one request at most is in flight. It also proves that, against the app's
  API, the grid shows exactly pages 1..k of the listing.
- **Plugin endpoints.** `plugin_ajax.dfy` models `wpit_load_more`,
  `wpit_filter` and `wpit_agree`. It proves that at most one vote is counted per
  (user, post) over any sequence of requests.
- **Plugin page script.** `plugin_client.dfy` models URL view switching,
  load-more without an in-flight guard, the agree button and the field-filter
  chips, each connected to the endpoint it calls.
- **CSV transfer.** `csv_transfer.dfy` models the export layout and the import
  loop: `array_combine`, PHP `empty()`, defaults and counters. It proves the
  export→import round trip for the corrected import.
- **Meta box.** `meta_box.dfy` models the meta-box save. It is a loop with
  invariants that performs a whitelisted, underscore-prefixed partial update.

## Modelling choices

Some inputs the code cannot see become parameters:
- WordPress's post query is `catalog(field, search)`, an ordered list of ids;
- bcrypt is `hash`;
- `strip_tags` is `stripTags` (in the export it is applied to what
  `get_the_content()` returns in the export loop) and `sanitize_text_field`
  is `sanitize`;
- nonce verification is `nonceValid`;
- the outcome of `wp_insert_post` is `inserted`.

Page markup is a sequence of fragments, one per post. Timestamps are integers.

Asynchronous JavaScript is split into two parts: the part that runs when a
request is sent, and the callback that runs when it completes. Event traces
(`Run`, `RunButton`, `RunAgree`) carry the proofs about interleavings.

Some library behaviour the code relies on is modelled explicitly:
- `paginate(error_out=False)` raises a page below 1 to 1 and replaces a page
  size below 1 by 20.
- `WP_Query` reads `paged` through `absint`, with 0 read as 1.
- `array_combine` with mismatched lengths returns `false`, as in PHP 7.
- `admin-ajax.php` answers an action with no hook for the visitor with
  `wp_die('0', 400)`. `wpit_agree` has no hook for logged-out visitors, so
  `PluginAjax.Agree`'s own "must be logged in" branch cannot be reached
  through it; `PluginAjax.DispatchAgree` models the dispatch in front of it.
- The paging rule above is the one of Flask-SQLAlchemy 3.x. No dependency
  versions are pinned in the sources.

The card template `templates/index.html` is not part of this model.
`CardLoader.MountedInSync` takes it to render four things:
- `data-page` as 1;
- `data-has-more` as the lower-case word `true` or `false`;
- `data-per-page` as 12;
- the sentinel, followed by one card per item of `its`, each the card the
  script itself builds for that item.

## Model

| member | source | states |
|---|---|---|
| Php.QueryPage | wp-impossible-trinity/includes/class-it-ajax.php:47-54 | the page WordPress serves for a requested `paged` value is its absolute value (`absint`), with 0 served as page 1: the request itself for every positive request |
| Paging.PageCount | impossible-trinity/app.py:54-56 | the number of pages is the ceiling of rows / page size: enough pages cover every row, and the last page is never empty |
| Paging.Page | impossible-trinity/app.py:54-59 | page p holds min(n, rows left) rows, and its i-th row is row (p-1)*n+i of the ordered list |
| Paging.PageNonEmptyIffWithinCount | wp-impossible-trinity/includes/class-it-ajax.php:77-80 | a page has rows exactly when its number is within the page count |
| Paging.MorePagesIffRowsRemain | impossible-trinity/app.py:77-78 | "more pages than p" is equivalent to "rows remain after page p" |
| Paging.PagesArePrefix | impossible-trinity/app.py:50-79 | pages 1..k put together are exactly the first min(k*n, rows) rows, in order |
| Paging.AllPagesAreAllRows | impossible-trinity/app.py:50-79 | fetching every page in turn yields every row exactly once |
| FlaskModels.EmptyStore | impossible-trinity/models.py:7-61 | the empty database satisfies every schema constraint |
| FlaskModels.CommentsOf | impossible-trinity/models.py:50-51 | an item's comments are exactly the comments whose item key is that item |
| FlaskModels.InsertNewest | impossible-trinity/app.py:34-36 | inserting an item into a newest-first order keeps it newest first and adds exactly that item |
| FlaskModels.InsertNewestDistinct | impossible-trinity/app.py:34-36 | inserting an absent item keeps the order free of duplicates |
| FlaskModels.Newest | impossible-trinity/app.py:45-47 | the listing is ordered by creation time, newest first, without duplicates, and holds exactly the existing items |
| FlaskModels.Listing | impossible-trinity/app.py:45-47 | the item listing is newest first and duplicate-free |
| FlaskModels.ListingIsAllItems | impossible-trinity/app.py:45-47 | in a valid store the listing holds every item exactly once |
| FlaskApp.Register | impossible-trinity/app.py:138-164 | a taken username is refused first; registration succeeds exactly with a username and a password; the new user is not an admin and nothing else changes |
| FlaskApp.RegisterPreservesValid | impossible-trinity/models.py:10 | registration keeps usernames unique (the UNIQUE column) and the store valid |
| FlaskApp.AddComment | impossible-trinity/app.py:86-104 | a comment is added exactly for a logged-in user, an existing item and non-empty content; a missing item is a 404 |
| FlaskApp.AddCommentPreservesValid | impossible-trinity/app.py:86-104 | adding a comment keeps the store valid and grows the item's comments by exactly one |
| FlaskApp.DeleteComment | impossible-trinity/app.py:106-119 | only an administrator removes a comment, and only that comment goes |
| FlaskApp.DeleteCommentPreservesValid | impossible-trinity/app.py:106-119 | removing a comment keeps the store valid, and its item loses exactly that comment |
| FlaskApp.FormRow | impossible-trinity/app.py:178-212 | the row holds every submitted column as submitted: name, field, description, the three elements and explanations, hyperlink and images. An absent English name becomes "Impossible Trinity". Creator, timestamps and count are the ones given |
| FlaskApp.FormOf | impossible-trinity/app.py:178-212 | a row's columns fill a form with every NOT NULL field present |
| FlaskApp.FormRoundTrip | impossible-trinity/app.py:178-212 | reading a stored row's form back gives the submitted form, with only the English name's default filled in |
| FlaskApp.AddItem | impossible-trinity/app.py:173-220 | a logged-in user with a complete form adds exactly one item: the form's row, created by them at `now`, with no agreements; a missing NOT NULL column fails |
| FlaskApp.AddItemPreservesValid | impossible-trinity/models.py:48 | a new item has an existing creator, so the store stays valid |
| FlaskApp.EditItem | impossible-trinity/app.py:222-256 | only the creator or an administrator edits; the row becomes the form's row, with `updated_at` set to now and creation time, agreement count and creator kept; other items are unchanged |
| FlaskApp.EditItemPreservesValid | impossible-trinity/models.py:48 | an edit keeps the creator, so the store stays valid, and the item then holds exactly the submitted form |
| FlaskApp.DeleteItem | impossible-trinity/app.py:258-272 | only the creator or an administrator deletes; the item and exactly its comments are removed; every remaining item and comment keeps its value |
| FlaskApp.DeleteItemPreservesValid | impossible-trinity/models.py:51 | the delete-orphan cascade leaves no comment pointing at the deleted item and the store valid |
| FlaskApp.AgreeIt | impossible-trinity/app.py:294-300 | an agreement adds one to the item's count and answers with the new count; the commit stamps `updated_at` with now through the column's `onupdate` (models.py:37); nothing else changes |
| FlaskApp.AgreeItCountsEveryCall | impossible-trinity/app.py:294-300 | the same user agreeing n times adds exactly n: the route does not record who agreed |
| FlaskApp.Serialize | impossible-trinity/app.py:59-73 | the JSON item carries the item's id, name, field, three elements, description, agreement count and three explanations, and its number of comments |
| FlaskApp.EffectivePage | impossible-trinity/app.py:52-56 | the page used is the requested one when it is at least 1, and 1 when it is absent or below 1 |
| FlaskApp.EffectivePerPage | impossible-trinity/app.py:53-56 | the page size used is the requested one when it is at least 1, 12 when absent, and 20 when below 1 (the Flask-SQLAlchemy 3.x rule) |
| FlaskApp.Index | impossible-trinity/app.py:28-48 | the card view shows the first 12 items, newest first, with has_more exactly when more than 12 exist; other views list every item |
| FlaskApp.ApiIts | impossible-trinity/app.py:50-79 | the response holds exactly the requested page of the newest-first listing: as many items as the page has (at most per_page), each the serialisation of the item at its position; has_more holds exactly when rows remain after the page; next_page is page+1 exactly when has_more |
| FlaskApp.SerializedPage | impossible-trinity/app.py:50-79 | serialising page p of the listing gives one JSON item per row of the page, at its position, newest first |
| FlaskApp.SerializeAll | impossible-trinity/app.py:58-73 | one JSON item per id, in the same order |
| CardLoader.Preview | impossible-trinity/static/js/main.js:73-74 | a description over 100 UTF-16 code units is cut to its first 100 units plus "..."; a shorter one is kept; a missing or empty one becomes "" |
| CardLoader.PreviewBounded | impossible-trinity/static/js/main.js:73-74 | a preview is at most 103 code units and starts with the description's first units |
| CardLoader.PreviewIdempotent | impossible-trinity/static/js/main.js:73-74 | previewing a preview changes nothing |
| CardLoader.PreviewCountsCodeUnits | impossible-trinity/static/js/main.js:73-74 | a description of more than 50 characters, all outside the Basic Multilingual Plane, is cut after its 50th character plus "..." |
| JsText.DecodeEncode | impossible-trinity/static/js/main.js:73-74 | the JavaScript string of a text decodes back to the text |
| JsText.EncodeAstralLength | impossible-trinity/static/js/main.js:73 | a text of characters outside the Basic Multilingual Plane has twice as many code units as characters |
| CardLoader.CreateBadge | impossible-trinity/static/js/main.js:29-47 | a badge carries a tooltip exactly when the explanation is truthy; the tooltip heading is the caption plus "无法满足时：" |
| CardLoader.CreateCard | impossible-trinity/static/js/main.js:49-111 | the card links to the item and shows its name, field and counts; its badges are the three element badges in order; its preview is the preview of the description's JavaScript string |
| CardLoader.CardShowsDescription | impossible-trinity/static/js/main.js:73-74 | a card shows its whole description, which reads back intact, exactly when it fits 100 units; otherwise it shows the first 100 units and "..." |
| CardLoader.CreateCards | impossible-trinity/static/js/main.js:129-131 | one card per item, in response order |
| CardLoader.Mount | impossible-trinity/static/js/main.js:20-27 | page and per-page default to 1 and 12; hasMore holds only for the string "true"; the observer is registered exactly when the sentinel exists and hasMore; nothing is loading and the loader is inactive |
| CardLoader.Trigger | impossible-trinity/static/js/main.js:113-124 | loadMore does nothing while a load is in flight or when nothing remains; otherwise it raises the flag, activates the loader only when the page has one, and requests page+1 with the grid's page size |
| CardLoader.Settle | impossible-trinity/static/js/main.js:125-146 | a loaded response appends its cards, advances the page, takes has_more and hides the sentinel when it is false; a failure changes none of these; the flag and loader clear on every path |
| CardLoader.Step | impossible-trinity/static/js/main.js:149-155 | an intersection calls loadMore only when the observer was registered; a settle sends nothing |
| CardLoader.OneRequestInFlight | impossible-trinity/static/js/main.js:113-147 | over any run of events, requests sent equal requests settled, corrected by the flag at the two ends: at most one request is in flight |
| CardLoader.RunAppendOnly | impossible-trinity/static/js/main.js:129-134 | the page advances by exactly the number of loaded responses, and existing cards are never changed or removed |
| CardLoader.RequestsAskForNextPage | impossible-trinity/static/js/main.js:113-124 | every request of a run asks for a page after the one shown at its start and at most one past the one shown at its end, with the grid's page size; requested pages never go back |
| CardLoader.ExhaustedIsFinal | impossible-trinity/static/js/main.js:114-116 | once nothing remains and nothing is in flight, no event sends a request or changes the grid |
| CardLoader.FailureIsRetryable | impossible-trinity/static/js/main.js:139-146 | after a failed load the next intersection sends the same request again |
| CardLoader.MountedInSync | impossible-trinity/app.py:28-43 | under the template rendering described above, the grid mounted from the index page shows exactly page 1 and knows whether more exist |
| CardLoader.ServedIsPage | impossible-trinity/app.py:50-79 | the app answers a request for page p with exactly that page of the listing |
| CardLoader.RenderedStep | impossible-trinity/static/js/main.js:129-131 | rendering pages 1..k+1 is rendering pages 1..k followed by page k+1 |
| CardLoader.LoadStaysInSync | impossible-trinity/static/js/main.js:113-147 | a successful load against an unchanged store shows one more page and keeps the grid in step with the listing |
| CardLoader.ExhaustedShowsAll | impossible-trinity/static/js/main.js:133-138 | when the grid reports nothing more, it shows every item exactly once, newest first |
| PluginAjax.PerPage | wp-impossible-trinity/includes/class-it-ajax.php:45 | 20 posts a page exactly for the table view, 12 otherwise |
| PluginAjax.Render | wp-impossible-trinity/includes/class-it-ajax.php:80-90 | one table row per post for the table view, one card otherwise, in query order |
| PluginAjax.LoadMore | wp-impossible-trinity/includes/class-it-ajax.php:37-93 | the markup is the requested page rendered for the view; has_more holds exactly when posts remain after the page (and for every negative page) |
| PluginAjax.HasMoreForAnyPage | wp-impossible-trinity/includes/class-it-ajax.php:77 | comparing the page count with the page is "posts remain" for pages from 0 up, and always true below 0 |
| PluginAjax.Filter | wp-impossible-trinity/includes/class-it-ajax.php:232-290 | the first page of the new filter; with no posts, the empty-state block and has_more false; otherwise has_more exactly when the posts exceed one page |
| PluginAjax.Agree | wp-impossible-trinity/includes/class-it-ajax.php:185-227 | the checks run in order (logged in, valid id, existing trinity, not yet agreed) and a rejection writes nothing; success adds one to the count, appends the post to the user's list and answers the new count |
| PluginAjax.DispatchAgree | wp-impossible-trinity/includes/class-it-ajax.php:25-31 | a logged-out agree request finds no handler and gets the bare HTTP 400 answer with nothing written; a logged-in one runs the handler, whose "must be logged in" rejection therefore never reaches the page |
| PluginAjax.RunAgreeRecords | wp-impossible-trinity/includes/class-it-ajax.php:204-221 | agreement lists only grow, and every granted vote is recorded and was not on the list before |
| PluginAjax.OneVotePerUserAndPost | wp-impossible-trinity/includes/class-it-ajax.php:204-213 | over any sequence of requests, no (user, post) vote is granted twice |
| PluginAjax.CountsTallyVotes | wp-impossible-trinity/includes/class-it-ajax.php:215-217 | every post's stored count grows by exactly the number of votes granted for it, and no post appears or disappears |
| PluginClient.Drop | wp-impossible-trinity/assets/js/main.js:12 | deleting a parameter removes every pair with that name and keeps the others |
| PluginClient.SetParamSpec | wp-impossible-trinity/assets/js/main.js:11 | after set the name occurs once, with the new value, and the other parameters are as before |
| PluginClient.SwitchViewSpec | wp-impossible-trinity/assets/js/main.js:9-14 | the new URL names the view once, has no page cursor, and keeps every other parameter in order |
| PluginClient.StandaloneSwitchKeepsPage | impossible-trinity/static/js/main.js:2-6 | the standalone switch sets the view but keeps any page parameter |
| PluginClient.StoredPage | wp-impossible-trinity/assets/js/main.js:53 | an absent or zero stored page reads as 1 |
| PluginClient.IssueLoad | wp-impossible-trinity/assets/js/main.js:49-71 | the loader shows and the page after the stored one is requested with the stored view, field and search |
| PluginClient.ApplyLoad | wp-impossible-trinity/assets/js/main.js:72-96 | a successful, non-empty response appends its markup, stores the captured page plus one and stops observing when nothing remains; the loader hides on every path |
| PluginClient.NoInFlightGuard | wp-impossible-trinity/assets/js/main.js:34-44 | two intersections before a response send the same request twice, and both answers are appended while the page advances once |
| PluginClient.SequentialLoadAppendsNextPage | wp-impossible-trinity/assets/js/main.js:49-98 | one load with nothing else in flight appends exactly the next page rendered for the view and stops observing exactly when no posts remain |
| PluginClient.Click | wp-impossible-trinity/assets/js/main.js:105-122 | a click on an enabled button disables it and sends its post id; a disabled button sends nothing |
| PluginClient.SettleAgree | wp-impossible-trinity/assets/js/main.js:123-146 | every completion re-enables the button; success shows the server's count; a business failure alerts the server's message or "An error occurred.", a transport error alerts "An error occurred. Please try again.", and both leave the count |
| PluginClient.Delivered | wp-impossible-trinity/assets/js/main.js:123-146 | the bare HTTP 400 answer reaches the page as a transport error; a JSON reply arrives as the success count or the rejection's message |
| PluginClient.AgreeRoundTrip | wp-impossible-trinity/assets/js/main.js:105-147 | through admin-ajax, a logged-out click alerts "An error occurred. Please try again." and stores nothing; for a logged-in user the shown count becomes the stored count on success, and a rejection alerts its message and leaves the count |
| PluginClient.OneAgreeInFlight | wp-impossible-trinity/assets/js/main.js:120-146 | however fast the clicks come, a button has at most one request out |
| PluginClient.IssueFilter | wp-impossible-trinity/assets/js/main.js:166-178 | a filter request carries the field and the stored view, and no page or search |
| PluginClient.Activate | wp-impossible-trinity/assets/js/main.js:196-202 | a chip is active exactly when its field is the filter's field |
| PluginClient.ApplyFilter | wp-impossible-trinity/assets/js/main.js:179-204 | success replaces the body, resets the page to 1, records the field, re-observes when more posts exist and re-marks the chips; failure changes nothing |
| PluginClient.ExactlyOneChipActive | wp-impossible-trinity/assets/js/main.js:196-202 | with one chip per field, exactly one chip is active after a filter |
| PluginClient.FilterShowsFirstPage | wp-impossible-trinity/assets/js/main.js:166-206 | after a filter, the body holds exactly the first page of the field's posts, or the empty-state block, and the page is 1 |
| CsvTransfer.ExportRow | wp-impossible-trinity/includes/class-it-export-import.php:146-161 | an exported row has one value per header column |
| CsvTransfer.ExportRowMatchesHeader | wp-impossible-trinity/includes/class-it-export-import.php:124-161 | every cell holds the value its header column names: the title, the tag-stripped content the export loop reads, or the meta value under that column's key |
| CsvTransfer.ExportRows | wp-impossible-trinity/includes/class-it-export-import.php:142-164 | one row per post, in query order |
| CsvTransfer.Combine | wp-impossible-trinity/includes/class-it-export-import.php:210 | rows pair with the header exactly when the lengths match, and the keys are the header cells |
| CsvTransfer.CombineLookup | wp-impossible-trinity/includes/class-it-export-import.php:210 | with distinct header cells, each cell maps to its own row value |
| CsvTransfer.PostFor | wp-impossible-trinity/includes/class-it-export-import.php:219-225 | an importable row becomes a new published post by the importing user, titled by its name, with its description or "" as content |
| CsvTransfer.PostForMeta | wp-impossible-trinity/includes/class-it-export-import.php:231-242 | each meta key gets the column's value when present; otherwise "Impossible Trinity" for name_en and "" for the others; the elements always come from the row |
| CsvTransfer.SingleRow | wp-impossible-trinity/includes/class-it-export-import.php:212-247 | a row creates one post exactly when name and the three elements are non-empty under PHP empty() and the insert succeeds; otherwise it is skipped |
| CsvTransfer.ImportRows | wp-impossible-trinity/includes/class-it-export-import.php:203-248 | imported + skipped equals the rows read; exactly one post per imported row is appended and existing posts are untouched |
| CsvTransfer.ImportRowsAsWritten | wp-impossible-trinity/includes/class-it-export-import.php:227-247 | every row is counted once, but a failed insert is counted as imported, so posts created can be fewer than the imported count |
| CsvTransfer.FailedInsertCountedAsImported | wp-impossible-trinity/includes/class-it-export-import.php:227-244 | a valid row whose insert fails is reported imported while no post exists |
| CsvTransfer.Keys | wp-impossible-trinity/includes/class-it-export-import.php:196 | the header keys are the header cells, in order, except that a first cell starting with the byte-order mark loses the mark |
| CsvTransfer.Import | wp-impossible-trinity/includes/class-it-export-import.php:195-248 | a missing header aborts before any insert; otherwise every row is accounted for and posts are only appended |
| CsvTransfer.ImportAsWritten | wp-impossible-trinity/includes/class-it-export-import.php:195-248 | a missing header aborts before any insert; otherwise every row is counted once |
| CsvTransfer.ExportedFileSkippedAsWritten | wp-impossible-trinity/includes/class-it-export-import.php:121 | with the header read as written, every row of an exported file is skipped: the byte-order mark hides the name column |
| CsvTransfer.RowRoundTrip | wp-impossible-trinity/includes/class-it-export-import.php:146-161 | re-reading an exported row gives back the title, the tag-stripped content the export loop read and every meta value under the same key |
| CsvTransfer.ExportedMeta | wp-impossible-trinity/includes/class-it-export-import.php:146-161 | the meta read from an exported row is the post's stored meta |
| CsvTransfer.ImportRowsReadingBack | wp-impossible-trinity/includes/class-it-export-import.php:203-248 | rows that each read back are all imported, in order, with nothing skipped, when every insert succeeds |
| CsvTransfer.ExportImportRoundTrip | wp-impossible-trinity/includes/class-it-export-import.php:124-161 | export followed by the corrected import recreates every post whose row passes validation, in order, as a published post, when every insert succeeds: the title as `get_the_title` shows it, the content as `strip_tags(get_the_content())` wrote it and every meta value, with cells taken as stored |
| MetaBox.Guard | wp-impossible-trinity/includes/class-it-metaboxes.php:284-301 | the save proceeds exactly with a valid nonce, outside autosave, with edit permission, for a trinity post; a bad nonce is reported first |
| MetaBox.SaveMetaBoxes | wp-impossible-trinity/includes/class-it-metaboxes.php:282-324 | a failed guard changes nothing; each submitted whitelisted field is stored sanitised under "_" + name; every other key, `_agree_count` included, keeps its value; no other key appears |
| MetaBox.WriteFields | wp-impossible-trinity/includes/class-it-metaboxes.php:319-323 | each submitted field is stored sanitised under its underscored key; every other key keeps its value; no other key appears |
| MetaBox.AgreeCountNotField | wp-impossible-trinity/includes/class-it-metaboxes.php:304-317 | no whitelisted field maps to the agreement count's key |
| MetaBox.SameFieldsAsCsv | wp-impossible-trinity/includes/class-it-metaboxes.php:304-317 | the meta box edits exactly the twelve meta columns the CSV transfer moves |

## Left out

- Rendering and the DOM: HTML markup, escaping (`esc_*`), permalinks, dates, flash messages and redirects. Markup is a sequence of one fragment per post.
- `wp_trim_words` in the plugin's card markup and the plugin's table cells: only the ids rendered and their order are modelled.
- bcrypt, login and logout: the password hash is a parameter; the session's user id is an input.
- Nonce checks (`check_ajax_referer`, `check_admin_referer`, `wp_verify_nonce`): in the meta box the check is a parameter; elsewhere, as in load and filter, a failed check ends the request before any effect and is not modelled.
- Capability checks and upload errors of the export/import admin page (`manage_options`, `UPLOAD_ERR_OK`, `fopen`): they end the request with `wp_die` before any effect.
- CSV quoting by `fputcsv`/`fgetcsv`: cells are modelled after decoding. `fgetcsv`'s reading of a blank line is not modelled.
- `array_combine` under PHP 8, which throws on a length mismatch instead of returning false.
- Timers, fades, the intersection geometry and `rootMargin`: an intersection is an event.
- Several IntersectionObserver instances. The plugin's filter creates a new observer when more pages exist; the model keeps one flag, so `observing` only turns on there.
- The plugin's `per-page` container value: it is read but never sent, so it has no effect.
- Which element the plugin appends to (card grid or table body): the listing body is one sequence.
- The read-modify-write race of the plugin's agree endpoint under concurrent requests: requests are handled one after another.
- The dashboard, admin, detail and login pages of the Flask app: they only read.
- Ordering of items created at the same instant: the model places the larger id first; SQL leaves this order unspecified.
- jQuery's conversion of numeric-looking `data-*` values to numbers: container values are modelled as strings and integers.
- CsvTransfer.ExportRow: the description cell is `strip_tags(get_the_content())` in the export loop, not the stripped stored content. For a post with `<!--more-->` it is the teaser plus the more-link text; with `<!--nextpage-->` it is the first page only; for a password-protected post it is the password form. `WpPost.content` stands for that value, and the round trip brings back that text. How `get_the_content` produces it is not modelled.
- CsvTransfer.ExportImportRoundTrip: the export takes posts of every status, but the import creates published posts (`NewPost.status` is `"publish"`), so a draft, pending or private trinity comes back published.
- CsvTransfer.ExportImportRoundTrip: the import hands raw cells to `wp_insert_post` and `update_post_meta`, which both apply `wp_unslash`, so a backslash in a cell is lost on the way back; and the exported title is `get_the_title()`, the filtered title (wptexturize's curly quotes and `&#8230;`), so the recreated title is the filtered one, not the stored `post_title`. Neither effect is modelled.
- FlaskApp.EffectivePerPage: follows Flask-SQLAlchemy 3.x. Under 2.x a page size of 0 is kept and gives an empty page, and the sources pin no version.
- CardLoader.MountedInSync: `templates/index.html` is not part of this model; the data attributes, the sentinel and the server-rendered cards are assumed as stated under "Modelling choices".
- CardLoader.Preview: a cut that splits a surrogate pair keeps the lone high surrogate as a unit, as JavaScript does; how the DOM displays that unit is not modelled.
- FlaskApp.EffectivePage and FlaskApp.EffectivePerPage: the non-integer query-string case (read as the default) is folded into `None`.

## Findings

| source | as written | input that shows it | evidently intended | confidence | as-written member | corrected member |
|---|---|---|---|---|---|---|
| wp-impossible-trinity/includes/class-it-export-import.php:227-247 | `wp_insert_post` is called without its error flag, so a failed insert returns 0. `is_wp_error(0)` is false, so the row is counted as imported, and the meta writes to post id 0 fail silently | a row with name, element1, element2 and element3 set whose insert fails: imported = 1, no post created | a failed insert counts as skipped | medium, not executed | CsvTransfer.ImportRowsAsWritten, CsvTransfer.FailedInsertCountedAsImported | CsvTransfer.ImportRows |
| wp-impossible-trinity/includes/class-it-export-import.php:121,196,213 | the export writes a UTF-8 byte-order mark before the header; the import reads the header as is, so the first key is the mark followed by `name` | re-importing any exported file: no `name` key exists, `empty($data['name'])` holds, and every row is skipped | the mark is stripped from the first header cell, so an exported file imports back | high, not executed | CsvTransfer.ImportAsWritten, CsvTransfer.ExportedFileSkippedAsWritten | CsvTransfer.Import, CsvTransfer.ExportImportRoundTrip |
