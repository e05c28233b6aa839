# Automatic Redirect: a verified model of the redirect reconciliation

The Joomla content plugin *Automatic Redirect* runs when an article is saved. If an
existing article is saved with a new alias, the plugin does two things:

- it records a permanent (301) redirect from the article's old public URL to its new one;
- it tidies the `#__redirect_links` table.

To get there, the save hook `onContentBeforeSave`:

1. computes the old URL. It asks the site router for the article's URL and removes every
   `/administrator` segment that a single left-to-right scan finds. Text around a removed
   segment that forms a new `/administrator` stays.
2. computes the new URL. It replaces every occurrence of the stored alias in the old URL
   with the incoming alias.
3. runs four statements against the redirect table, in this order:
   - delete every redirect from the old URL;
   - point every redirect that led to the old URL at the new URL;
   - insert the new redirect;
   - delete every redirect from a URL to itself.

This project models that save hook in Dafny, together with its four table helpers and the
part of PHP's `str_replace` it relies on. It proves what the handler promises about the
table it leaves behind.

- `php_strings.dfy` (module `PhpStrings`) models `str_replace` with one search string and
  one replacement.
  - `ReplaceAll` is a single left-to-right scan. After each match the scan resumes *after*
    the match, and it never rescans the text it put in.
  - `StrReplace` adds PHP's rule that an empty search string leaves the subject as it is.
- `redirect_table.dfy` (module `RedirectTable`) models the table.
  - A row holds the six columns the plugin writes.
  - The WHERE clauses and the row-level meaning of the statements are the specification
    functions `Deleted` and `Updated`.
  - The class `Table` holds the rows as a `seq<Row>`. Its methods `Delete`, `Update` and
    `Insert` change them. `Delete` and `Update` walk the rows in a loop, and each is proved
    equal to its specification function.
- `automatic_redirect.dfy` (module `AutomaticRedirect`) models the plugin.
  - `SiteUrl` and `RenamedUrl` are the two URL computations.
  - `Reconcile` is the effect of the four statements on a table value.
  - The class `Plugin` holds the four helpers and `OnContentBeforeSave`. The latter takes
    the host's data as plain inputs:
    - the context string;
    - `isNew`;
    - the incoming alias;
    - the stored alias;
    - the URL string the router built;
    - the clock reading.

  Lemmas about `Reconcile` state what the table looks like afterwards:
  - no row redirects a URL to itself;
  - when the new URL differs from the old one, chains through the old URL are collapsed
    and exactly one row starts from the old URL;
  - when the two URLs coincide, for instance because the stored alias does not occur in
    the URL, nothing is collapsed and no row starts from that URL any more
    (`ReconcileSameUrl`, `ReconcileSameUrlKeeps`);
  - rows that are not involved stay as they were;
  - running the same change again leaves the table as it is.

## Model

| member | source | states |
|---|---|---|
| PhpStrings.StrReplace | automaticredirect.php:50-51 | An empty search string leaves the subject unchanged. Otherwise the result is the left-to-right replacement of every match. The subject comes back unchanged exactly when the search is empty, equals the replacement, or does not occur. |
| PhpStrings.ReplaceAllNoMatch | automaticredirect.php:51 | When the needle does not occur, the replacement returns the subject unchanged. |
| PhpStrings.ReplaceAllIdentity | automaticredirect.php:51 | Replacing a string by itself changes nothing. |
| PhpStrings.ReplaceAllChanges | automaticredirect.php:51 | A match replaced by a different string always changes the result. |
| PhpStrings.ReplaceAllFixpoint | automaticredirect.php:50-51 | The replacement leaves its subject unchanged if and only if the replacement equals the needle or the needle does not occur. |
| PhpStrings.ReplaceAllLength | automaticredirect.php:50-51 | The result's length is the subject's length plus, for each replaced match, the replacement's length minus the needle's length. |
| PhpStrings.ReplaceAllLengthCompare | automaticredirect.php:50-51 | A replacement at least as long as the needle never shortens the subject. A replacement at most as long never lengthens it. |
| PhpStrings.ReplaceAllFirstMatch | automaticredirect.php:50-51 | Everything before the first match is copied. The match becomes the replacement, and the scan resumes after it. |
| PhpStrings.OnlyMatch | automaticredirect.php:50-51 | When there is a single match, only that match changes. |
| AutomaticRedirect.SiteUrl | automaticredirect.php:50 | The old URL equals the router's output exactly when that output contains no `/administrator`. Each segment removed shortens the URL by the segment's length. |
| AutomaticRedirect.SiteUrlSingleScan | automaticredirect.php:50 | Only the segments found by one scan are removed. Text around a removed segment that forms a new `/administrator` is kept. |
| AutomaticRedirect.RenamedUrl | automaticredirect.php:51 | The new URL is the old URL with every match of the stored alias replaced by the incoming alias. It equals the old URL exactly when the stored alias is empty, equals the incoming alias, or does not occur. |
| AutomaticRedirect.RenameLastSegment | automaticredirect.php:51 | When the alias is the last part of the URL and occurs nowhere earlier, only the end of the URL changes. |
| AutomaticRedirect.RenameEveryMatch | automaticredirect.php:51 | An earlier match of the alias, for instance in a category alias, is replaced as well. |
| RedirectTable.Set | automaticredirect.php:119 | The named column takes the new value, and every other column keeps its value. |
| RedirectTable.Deleted | automaticredirect.php:136-152 | A delete leaves no row that satisfies the WHERE clause, and never adds rows. |
| RedirectTable.DeletedNone | automaticredirect.php:136-152 | A delete that finds no matching row leaves the table unchanged. |
| RedirectTable.DeletedKeeps | automaticredirect.php:136-152 | Every row that does not satisfy the WHERE clause stays, as many times as it was there. |
| RedirectTable.DeletedContains | automaticredirect.php:136-152 | A row that does not satisfy the WHERE clause is still in the table after the delete. |
| RedirectTable.DeletedFrom | automaticredirect.php:136-152 | Every row left after a delete was in the table before. |
| RedirectTable.DeletedAppend | automaticredirect.php:136-152 | A delete works row by row: deleting from two concatenated tables gives the two results concatenated. |
| RedirectTable.DeletedKeepsOrder | automaticredirect.php:136-152 | Two kept rows stay in their original order. |
| RedirectTable.DeletedSnoc | automaticredirect.php:136-152 | Deleting from a table one row longer acts on the extra row alone. |
| RedirectTable.Updated | automaticredirect.php:114-129 | An update keeps the number of rows. |
| RedirectTable.UpdatedAt | automaticredirect.php:114-129 | An update changes each row in its own place and on its own. |
| RedirectTable.UpdatedColumn | automaticredirect.php:114-129 | In each row the updated column becomes the new value exactly where it held the searched value, and keeps its value elsewhere. |
| RedirectTable.UpdatedOthers | automaticredirect.php:114-129 | An update changes no column other than the one it sets, in any row. |
| RedirectTable.UpdatedUnchanged | automaticredirect.php:114-129 | An update that sets a value to itself, or finds no row to change, leaves the table unchanged. |
| RedirectTable.UpdatedAppend | automaticredirect.php:114-129 | An update works row by row over concatenated tables. |
| RedirectTable.UpdatedSnoc | automaticredirect.php:114-129 | Updating a table one row longer acts on the extra row alone. |
| RedirectTable.Table.Delete | automaticredirect.php:136-152 | After the loop the rows are the ones the delete specification keeps. |
| RedirectTable.Table.Update | automaticredirect.php:114-129 | After the loop the rows are the updated rows. |
| RedirectTable.Table.Insert | automaticredirect.php:97-104 | The table gains the one new row, and the rows already there are untouched. |
| AutomaticRedirect.Plugin.DeleteRedirect | automaticredirect.php:136-152 | Removes every row whose `old_url` is the given URL, and does nothing else. |
| AutomaticRedirect.Plugin.UpdateRedirect | automaticredirect.php:114-129 | Sets the named column to the new URL in every row where it held the searched URL, and does nothing else. |
| AutomaticRedirect.Plugin.CreateRedirect | automaticredirect.php:88-105 | Adds exactly one row: published, header 301, and created and modified at the same date. Existing rows are untouched. |
| AutomaticRedirect.Plugin.CleanUselessRedirect | automaticredirect.php:157-173 | Removes every row whose `old_url` equals its `new_url`, and does nothing else. |
| AutomaticRedirect.Plugin.OnContentBeforeSave | automaticredirect.php:32-59 | Returns true on every path. Other contexts, new articles and an alias strictly equal to the stored one leave the table unchanged. Otherwise the table becomes the reconciliation for the old and new URL. |
| AutomaticRedirect.ReconcileSplit | automaticredirect.php:53-56 | The old rows a reconciliation keeps come first. The new redirect follows, unless it would redirect a URL to itself. |
| AutomaticRedirect.RetainedClean | automaticredirect.php:53-56 | No kept old row starts from the old URL or is a self-redirect. When the URL changed, none leads to the old URL. Each kept row was there before or now leads to the new URL. |
| AutomaticRedirect.RetainedFixed | automaticredirect.php:53-56 | Old rows that the statements would all leave alone are kept whole and in order. |
| AutomaticRedirect.RetainedAppend | automaticredirect.php:53-56 | The statements treat the old rows row by row. |
| AutomaticRedirect.ReconcileClean | automaticredirect.php:53-56 | Afterwards no row redirects a URL to itself. When the URL changed, no row leads to the old URL: chains are collapsed. |
| AutomaticRedirect.ReconcileSingleSource | automaticredirect.php:53-56 | When the URL changed, exactly one row starts from the old URL. It is the last row, the published 301 redirect to the new URL. |
| AutomaticRedirect.ReconcileCollapsesChains | automaticredirect.php:53-56 | A row that led to the old URL now leads to the new URL, unless it started from the old URL or from the new one. |
| AutomaticRedirect.ReconcileKeepsOthers | automaticredirect.php:53-56 | A row that does not touch the old URL and is not a self-redirect survives unchanged. |
| AutomaticRedirect.ReconcileUntouched | automaticredirect.php:53-56 | A table with no row touching the old URL and no self-redirect only gains the new redirect, at the end. |
| AutomaticRedirect.ReconcileIdempotent | automaticredirect.php:53-56 | Running the same four statements again with the same URLs and date leaves the table as the first run left it. |
| AutomaticRedirect.RetainedOne | automaticredirect.php:53-56 | On a one-row table the statements treat the row as an independent per-row rule says. |
| AutomaticRedirect.RetainedRowByRow | automaticredirect.php:53-56 | Applying the statements in turn to the old rows equals applying the per-row rule to each row in table order. |
| AutomaticRedirect.ReconcileRowByRow | automaticredirect.php:53-56 | A reconciliation is the per-row rule applied to the old rows, followed by the new redirect unless it would be a self-redirect. |
| AutomaticRedirect.ReconcileSameUrl | automaticredirect.php:51-56 | When the new URL equals the old one, for instance because the stored alias does not occur in the URL, every redirect from that URL is gone and no row is added. |
| AutomaticRedirect.ReconcileSameUrlKeeps | automaticredirect.php:51-56 | When the new URL equals the old one, nothing is collapsed: every row that does not come from that URL and is not a self-redirect stays, a row leading to that URL included. |

## Left out

The model does not cover the following:

- **Database access and SQL text.** This covers `Factory::getDbo`, query building, quoting,
  `setQuery` and `execute`. The model gives only each statement's row-level effect.
- **Reading the stored article (`getArticle`).** This is a read from the database. Its
  alias is an input to the handler. A missing row is not modelled.
- **Building the URL.** The site application, its router and `ContentHelperRoute` are host
  services, and their output is taken as an opaque input string.
- **The clock.** `Factory::getDate()->toSql()` is the date parameter. Both date columns get
  the same reading.
- **Plugin plumbing.** The `JPlugin` base class, the `JLoader` registration and the
  `_JEXEC` guard are not modelled.
- **Transactions, concurrent saves and database exceptions.** Each statement is modelled
  as completing atomically and in sequence.
- **Other columns of the redirect table** (id, hits, referer, comment). The plugin never
  writes them.
- **Table.Insert: where a new row goes.** SQL gives no order to the rows, and the model
  appends the new row at the end. The "in order" statements are about the table seen in
  that order.
- **Table.Update: updating in place.** It builds the updated row sequence in a loop and
  then assigns it, rather than overwriting rows in place. Aliasing does not arise, because
  a row is a value.
- **PHP's loose comparisons.** `!=` on the context compares strings, because the constant
  is not numeric. The alias check is the strict `===`, modelled as string equality.
- **PhpStrings.StrReplace: bytes versus characters.** It works on `seq<char>`, strings of
  Unicode scalar values, while PHP compares the UTF-8 bytes. For valid UTF-8 the matches
  are the same, because no character's encoding starts inside another's. The lengths in
  `ReplaceAllLength` and `SiteUrl` count characters, not the bytes `strlen` counts.
- **RedirectTable.Satisfies and RedirectTable.UpdatedRow: SQL collation.** The WHERE
  clauses `old_url = x`, `new_url = x` and `old_url = new_url`
  (automaticredirect.php:120, 141, 162) are modelled as exact, case-sensitive string
  equality. The database compares under the column's collation, which is often
  case-insensitive and pads trailing spaces. Under such a collation more rows match. For
  example, an alias change only in letter case makes the new redirect a self-redirect
  that line 56 deletes, while `ReconcileSingleSource` and `ReconcileKeepsOthers` promise
  it stays.
- **AutomaticRedirect.Plugin.OnContentBeforeSave: the doc comment.** The comment above
  `onContentBeforeSave` (automaticredirect.php:28) says it returns true on error and
  nothing otherwise. The code returns true on every path, and the model follows the code.
