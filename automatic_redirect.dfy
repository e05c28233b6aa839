/** The Automatic Redirect content plugin: when an existing article is saved with a
    different alias, it records a permanent redirect from the article's old public
    URL to its new one and keeps the redirect table free of chains through the old
    URL and of rows that redirect a URL to itself. */
module AutomaticRedirect {
  import opened PhpStrings
  import opened RedirectTable

  /** The context the host passes when an article is saved. */
  const ArticleContext: string := "com_content.article"

  /** The path segment the router adds when it runs inside the administrator console. */
  const AdminSegment: string := "/administrator"

  /** The values createRedirect writes into `published` and `header`. */
  const Published: int := 1
  const MovedPermanently: int := 301

  /** The row that createRedirect inserts; both dates are the same clock reading. */
  function NewRedirect(oldUrl: string, newUrl: string, date: string): Row
  {
    Row(oldUrl, newUrl, Published, MovedPermanently, date, date)
  }

  /** The article's public URL: the router's output with every `/administrator`
      the scan finds taken out. The URL is unchanged exactly when it holds no such
      segment, and each one removed shortens it by the segment's length. */
  function SiteUrl(built: string): (r: string)
    ensures r == built <==> !Occurs(built, AdminSegment)
    ensures |r| == |built| - |AdminSegment| * MatchCount(built, AdminSegment)
  {
    ReplaceAllLength(built, AdminSegment, "");
    StrReplace(AdminSegment, "", built)
  }

  /** The article's URL after the alias change: every match of the stored alias in
      the old URL replaced by the incoming alias. It equals the old URL exactly when
      the stored alias is empty, equals the incoming alias, or does not occur. */
  function RenamedUrl(oldUrl: string, storedAlias: string, incomingAlias: string): (r: string)
    ensures r == oldUrl <==>
      (storedAlias == [] || storedAlias == incomingAlias || !Occurs(oldUrl, storedAlias))
    ensures storedAlias != [] ==> r == ReplaceAll(oldUrl, storedAlias, incomingAlias)
  {
    StrReplace(storedAlias, incomingAlias, oldUrl)
  }

  /** The table after the four statements the handler runs for an alias change:
      delete the rows from `oldUrl`, point the rows that led to `oldUrl` at `newUrl`,
      insert the redirect from `oldUrl` to `newUrl`, delete every self-redirect. */
  function Reconcile(t: seq<Row>, oldUrl: string, newUrl: string, date: string): seq<Row>
  {
    var t1 := Deleted(t, OldUrlIs(oldUrl));
    var t2 := Updated(t1, NewUrl, oldUrl, newUrl);
    Deleted(t2 + [NewRedirect(oldUrl, newUrl, date)], SelfRedirect)
  }

  /** The rows already in the table, as a reconciliation leaves them: the first,
      second and fourth statements applied to them alone. */
  function Retained(t: seq<Row>, oldUrl: string, newUrl: string): seq<Row>
  {
    Deleted(Updated(Deleted(t, OldUrlIs(oldUrl)), NewUrl, oldUrl, newUrl), SelfRedirect)
  }

  /** A row that a reconciliation with these URLs leaves as it is. */
  predicate RetainedRow(row: Row, oldUrl: string, newUrl: string)
  {
    && row.oldUrl != oldUrl
    && row.oldUrl != row.newUrl
    && (oldUrl != newUrl ==> row.newUrl != oldUrl)
  }

  /** A reconciliation keeps the old rows it keeps ahead of the new redirect, and the
      new redirect is there unless it would redirect a URL to itself. */
  lemma ReconcileSplit(t: seq<Row>, oldUrl: string, newUrl: string, date: string)
    ensures Reconcile(t, oldUrl, newUrl, date)
         == Retained(t, oldUrl, newUrl) + (if oldUrl == newUrl then [] else [NewRedirect(oldUrl, newUrl, date)])
  {
    var row := NewRedirect(oldUrl, newUrl, date);
    DeletedAppend(Updated(Deleted(t, OldUrlIs(oldUrl)), NewUrl, oldUrl, newUrl), [row], SelfRedirect);
    assert [row][1..] == [];
  }

  /** The retained rows never come from `oldUrl`, never redirect a URL to itself and,
      when the URL changed, never lead to `oldUrl`; each was in the table before, or
      is a row that led to `oldUrl`, now leading to `newUrl`. */
  lemma RetainedClean(t: seq<Row>, oldUrl: string, newUrl: string)
    ensures var r := Retained(t, oldUrl, newUrl);
      forall i :: 0 <= i < |r| ==> RetainedRow(r[i], oldUrl, newUrl)
    ensures var r := Retained(t, oldUrl, newUrl);
      forall i :: 0 <= i < |r| ==> r[i] in t || r[i].newUrl == newUrl
  {
    var t1 := Deleted(t, OldUrlIs(oldUrl));
    var t2 := Updated(t1, NewUrl, oldUrl, newUrl);
    var r := Deleted(t2, SelfRedirect);
    UpdatedColumn(t1, NewUrl, oldUrl, newUrl);
    UpdatedOthers(t1, NewUrl, oldUrl, newUrl);
    DeletedFrom(t, OldUrlIs(oldUrl));
    DeletedFrom(t2, SelfRedirect);
    forall i | 0 <= i < |r|
      ensures RetainedRow(r[i], oldUrl, newUrl)
      ensures r[i] in t || r[i].newUrl == newUrl
    {
      var j :| 0 <= j < |t2| && t2[j] == r[i];
      assert Set(t2[j], NewUrl, Get(t1[j], NewUrl)) == t1[j];
      assert t1[j] in t;
    }
  }

  /** A table whose rows a reconciliation would all keep as they are is retained
      whole, in order. */
  lemma RetainedFixed(t: seq<Row>, oldUrl: string, newUrl: string)
    requires forall i :: 0 <= i < |t| ==> RetainedRow(t[i], oldUrl, newUrl)
    ensures Retained(t, oldUrl, newUrl) == t
  {
    DeletedNone(t, OldUrlIs(oldUrl));
    UpdatedUnchanged(t, NewUrl, oldUrl, newUrl);
    DeletedNone(t, SelfRedirect);
  }

  /** Retaining works row by row. */
  lemma RetainedAppend(a: seq<Row>, b: seq<Row>, oldUrl: string, newUrl: string)
    ensures Retained(a + b, oldUrl, newUrl) == Retained(a, oldUrl, newUrl) + Retained(b, oldUrl, newUrl)
  {
    var o := OldUrlIs(oldUrl);
    DeletedAppend(a, b, o);
    UpdatedAppend(Deleted(a, o), Deleted(b, o), NewUrl, oldUrl, newUrl);
    DeletedAppend(Updated(Deleted(a, o), NewUrl, oldUrl, newUrl),
                  Updated(Deleted(b, o), NewUrl, oldUrl, newUrl), SelfRedirect);
  }

  /** After a reconciliation no row redirects a URL to itself and, when the URL did
      change, no row leads to `oldUrl` any more: the chains through it are collapsed. */
  lemma ReconcileClean(t: seq<Row>, oldUrl: string, newUrl: string, date: string)
    ensures var r := Reconcile(t, oldUrl, newUrl, date);
      forall i :: 0 <= i < |r| ==> r[i].oldUrl != r[i].newUrl
    ensures var r := Reconcile(t, oldUrl, newUrl, date);
      oldUrl != newUrl ==> forall i :: 0 <= i < |r| ==> r[i].newUrl != oldUrl
  {
    ReconcileSplit(t, oldUrl, newUrl, date);
    RetainedClean(t, oldUrl, newUrl);
  }

  /** When the URL changed, exactly one row comes from `oldUrl` afterwards: the last
      one, the published permanent redirect to `newUrl` just inserted. */
  lemma ReconcileSingleSource(t: seq<Row>, oldUrl: string, newUrl: string, date: string)
    requires oldUrl != newUrl
    ensures var r := Reconcile(t, oldUrl, newUrl, date);
      && |r| > 0
      && r[|r| - 1] == NewRedirect(oldUrl, newUrl, date)
      && forall i :: 0 <= i < |r| - 1 ==> r[i].oldUrl != oldUrl
  {
    ReconcileSplit(t, oldUrl, newUrl, date);
    RetainedClean(t, oldUrl, newUrl);
  }

  /** Rows that led to `oldUrl` now lead to `newUrl`, unless they came from `oldUrl`
      (deleted first) or from `newUrl` (now self-redirects, deleted last). */
  lemma ReconcileCollapsesChains(t: seq<Row>, oldUrl: string, newUrl: string, date: string, k: nat)
    requires k < |t| && t[k].newUrl == oldUrl
    requires t[k].oldUrl != oldUrl && t[k].oldUrl != newUrl
    ensures t[k].(newUrl := newUrl) in Reconcile(t, oldUrl, newUrl, date)
  {
    var t1 := Deleted(t, OldUrlIs(oldUrl));
    var t2 := Updated(t1, NewUrl, oldUrl, newUrl);
    DeletedKeeps(t, OldUrlIs(oldUrl), t[k]);
    assert multiset(t1)[t[k]] > 0;
    var j :| 0 <= j < |t1| && t1[j] == t[k];
    UpdatedColumn(t1, NewUrl, oldUrl, newUrl);
    UpdatedOthers(t1, NewUrl, oldUrl, newUrl);
    assert Set(t2[j], NewUrl, Get(t1[j], NewUrl)) == t1[j];
    assert t2[j] == t[k].(newUrl := newUrl);
    DeletedKeeps(t2, SelfRedirect, t2[j]);
    assert multiset(Retained(t, oldUrl, newUrl))[t2[j]] > 0;
    ReconcileSplit(t, oldUrl, newUrl, date);
  }

  /** A row that neither comes from nor leads to `oldUrl`, and is not a
      self-redirect, survives unchanged. */
  lemma ReconcileKeepsOthers(t: seq<Row>, oldUrl: string, newUrl: string, date: string, k: nat)
    requires k < |t| && t[k].oldUrl != oldUrl && t[k].newUrl != oldUrl
    requires t[k].oldUrl != t[k].newUrl
    ensures t[k] in Reconcile(t, oldUrl, newUrl, date)
  {
    var t1 := Deleted(t, OldUrlIs(oldUrl));
    var t2 := Updated(t1, NewUrl, oldUrl, newUrl);
    DeletedKeeps(t, OldUrlIs(oldUrl), t[k]);
    assert multiset(t1)[t[k]] > 0;
    var j :| 0 <= j < |t1| && t1[j] == t[k];
    UpdatedColumn(t1, NewUrl, oldUrl, newUrl);
    UpdatedOthers(t1, NewUrl, oldUrl, newUrl);
    assert Set(t2[j], NewUrl, Get(t1[j], NewUrl)) == t1[j];
    assert t2[j] == t[k];
    DeletedKeeps(t2, SelfRedirect, t2[j]);
    assert multiset(Retained(t, oldUrl, newUrl))[t2[j]] > 0;
    ReconcileSplit(t, oldUrl, newUrl, date);
  }

  /** A table with no row touching `oldUrl` and no self-redirect only gains the new
      redirect, at the end: nothing else changes, not even the order. */
  lemma ReconcileUntouched(t: seq<Row>, oldUrl: string, newUrl: string, date: string)
    requires oldUrl != newUrl
    requires forall i :: 0 <= i < |t| ==> t[i].oldUrl != oldUrl && t[i].newUrl != oldUrl
    requires forall i :: 0 <= i < |t| ==> t[i].oldUrl != t[i].newUrl
    ensures Reconcile(t, oldUrl, newUrl, date) == t + [NewRedirect(oldUrl, newUrl, date)]
  {
    RetainedFixed(t, oldUrl, newUrl);
    ReconcileSplit(t, oldUrl, newUrl, date);
  }

  /** Running the same four statements again, with the same URLs and date, leaves the
      table as the first run left it. */
  lemma ReconcileIdempotent(t: seq<Row>, oldUrl: string, newUrl: string, date: string)
    ensures Reconcile(Reconcile(t, oldUrl, newUrl, date), oldUrl, newUrl, date)
         == Reconcile(t, oldUrl, newUrl, date)
  {
    var r := Reconcile(t, oldUrl, newUrl, date);
    var a := Retained(t, oldUrl, newUrl);
    var tail := if oldUrl == newUrl then [] else [NewRedirect(oldUrl, newUrl, date)];
    ReconcileSplit(t, oldUrl, newUrl, date);
    ReconcileSplit(r, oldUrl, newUrl, date);
    RetainedClean(t, oldUrl, newUrl);
    RetainedFixed(a, oldUrl, newUrl);
    RetainedAppend(a, tail, oldUrl, newUrl);
    assert Retained(tail, oldUrl, newUrl) == [];
  }

  /** What a reconciliation does to one row that was already there, seen on its own:
      a row from `oldUrl` goes, a row to `oldUrl` is pointed at `newUrl`, and the row
      goes if it then redirects a URL to itself. */
  function Survivor(row: Row, oldUrl: string, newUrl: string): seq<Row>
  {
    if row.oldUrl == oldUrl then []
    else
      var moved := if row.newUrl == oldUrl then row.(newUrl := newUrl) else row;
      if moved.oldUrl == moved.newUrl then [] else [moved]
  }

  /** The rows already there, each treated on its own, in table order. */
  function RowByRow(t: seq<Row>, oldUrl: string, newUrl: string): seq<Row>
  {
    if t == [] then [] else Survivor(t[0], oldUrl, newUrl) + RowByRow(t[1..], oldUrl, newUrl)
  }

  /** The statements on a one-row table treat that row as Survivor says. */
  lemma RetainedOne(x: Row, oldUrl: string, newUrl: string)
    ensures Retained([x], oldUrl, newUrl) == Survivor(x, oldUrl, newUrl)
  {
  }

  /** The statement-by-statement treatment of the existing rows is their row-by-row
      treatment. */
  lemma {:induction false} RetainedRowByRow(t: seq<Row>, oldUrl: string, newUrl: string)
    ensures Retained(t, oldUrl, newUrl) == RowByRow(t, oldUrl, newUrl)
  {
    if t != [] {
      assert t == [t[0]] + t[1..];
      RetainedAppend([t[0]], t[1..], oldUrl, newUrl);
      RetainedOne(t[0], oldUrl, newUrl);
      RetainedRowByRow(t[1..], oldUrl, newUrl);
    }
  }

  /** Reconciliation, statement by statement, is the row-by-row treatment of the
      existing rows, in their order, followed by the new redirect unless it would be
      a self-redirect. */
  lemma ReconcileRowByRow(t: seq<Row>, oldUrl: string, newUrl: string, date: string)
    ensures Reconcile(t, oldUrl, newUrl, date)
         == RowByRow(t, oldUrl, newUrl) + (if oldUrl == newUrl then [] else [NewRedirect(oldUrl, newUrl, date)])
  {
    ReconcileSplit(t, oldUrl, newUrl, date);
    RetainedRowByRow(t, oldUrl, newUrl);
  }

  /** When the alias does not occur in the URL, the old and new URL coincide; the
      handler then drops every redirect from that URL and adds none, and every row
      left was there before. */
  lemma ReconcileSameUrl(t: seq<Row>, url: string, date: string)
    ensures var r := Reconcile(t, url, url, date);
      forall i :: 0 <= i < |r| ==> r[i].oldUrl != url && r[i] in t
  {
    ReconcileSplit(t, url, url, date);
    var t1 := Deleted(t, OldUrlIs(url));
    UpdatedUnchanged(t1, NewUrl, url, url);
    DeletedFrom(t, OldUrlIs(url));
    DeletedFrom(t1, SelfRedirect);
  }

  /** When the old and new URL coincide, nothing is collapsed: every row that does not
      come from that URL and is not a self-redirect stays, a row leading to the URL
      included. */
  lemma ReconcileSameUrlKeeps(t: seq<Row>, url: string, date: string, k: nat)
    requires k < |t| && t[k].oldUrl != url && t[k].oldUrl != t[k].newUrl
    ensures t[k] in Reconcile(t, url, url, date)
  {
    ReconcileSplit(t, url, url, date);
    var t1 := Deleted(t, OldUrlIs(url));
    UpdatedUnchanged(t1, NewUrl, url, url);
    DeletedContains(t, OldUrlIs(url), k);
    var j :| 0 <= j < |t1| && t1[j] == t[k];
    DeletedContains(t1, SelfRedirect, j);
  }

  /** The usual case, the alias as the last part of the URL (for instance
      `/index.php/old-slug` renamed to `new-slug`): when no match of the alias starts
      earlier, only the end of the URL changes. */
  lemma RenameLastSegment(path: string, storedAlias: string, incomingAlias: string)
    requires storedAlias != []
    requires forall i: nat :: i < |path| ==> !OccursAt(path + storedAlias, storedAlias, i)
    ensures RenamedUrl(path + storedAlias, storedAlias, incomingAlias) == path + incomingAlias
  {
    assert path + storedAlias == path + storedAlias + [];
    ReplaceAllFirstMatch(path, storedAlias, [], incomingAlias);
    assert ReplaceAll([], storedAlias, incomingAlias) == [];
  }

  /** The substitution is not structural: when the alias also appears earlier in the
      URL, for instance as the category's alias, it is replaced there too. */
  lemma RenameEveryMatch(path: string, middle: string, storedAlias: string, incomingAlias: string)
    requires storedAlias != []
    requires forall i: nat :: i < |path| ==>
      !OccursAt(path + storedAlias + (middle + storedAlias), storedAlias, i)
    requires forall i: nat :: i < |middle| ==> !OccursAt(middle + storedAlias, storedAlias, i)
    ensures RenamedUrl(path + storedAlias + middle + storedAlias, storedAlias, incomingAlias)
         == path + incomingAlias + middle + incomingAlias
  {
    assert path + storedAlias + middle + storedAlias == path + storedAlias + (middle + storedAlias);
    ReplaceAllFirstMatch(path, storedAlias, middle + storedAlias, incomingAlias);
    RenameLastSegment(middle, storedAlias, incomingAlias);
  }

  /** The stripping is one scan: text around a removed `/administrator` that forms a
      new one stays (`/admin` and `istrator` around it give `/administrator`). */
  lemma SiteUrlSingleScan(before: string, after: string)
    requires forall i: nat :: i < |before| ==> !OccursAt(before + AdminSegment + after, AdminSegment, i)
    requires !Occurs(after, AdminSegment)
    ensures SiteUrl(before + AdminSegment + after) == before + after
  {
    OnlyMatch(before, AdminSegment, after, "");
  }

  /** The plugin, with the redirect table it writes to. */
  class Plugin {
    const db: Table

    constructor (db: Table)
      ensures this.db == db
    {
      this.db := db;
    }

    /** Removes every redirect from `url`. */
    method DeleteRedirect(url: string)
      modifies db
      ensures db.rows == Deleted(old(db.rows), OldUrlIs(url))
    {
      db.Delete(OldUrlIs(url));
    }

    /** In every redirect whose `urlType` column is `urlToUpdate`, sets that column
        to `newUrl`. */
    method UpdateRedirect(urlToUpdate: string, urlType: Column, newUrl: string)
      modifies db
      ensures db.rows == Updated(old(db.rows), urlType, urlToUpdate, newUrl)
    {
      db.Update(urlType, urlToUpdate, newUrl);
    }

    /** Adds a published permanent redirect from `oldUrl` to `newUrl`, created and
        modified at `date`. */
    method CreateRedirect(oldUrl: string, newUrl: string, date: string)
      modifies db
      ensures db.rows == old(db.rows) + [Row(oldUrl, newUrl, 1, 301, date, date)]
    {
      db.Insert(NewRedirect(oldUrl, newUrl, date));
    }

    /** Removes every redirect from a URL to itself. */
    method CleanUselessRedirect()
      modifies db
      ensures db.rows == Deleted(old(db.rows), SelfRedirect)
    {
      db.Delete(SelfRedirect);
    }

    /** The save hook. `storedAlias` is the alias of the article as stored before
        this save, `builtUrl` what the site router builds for that article, `date`
        the clock reading. Saves of other content, of new articles and of articles
        whose alias is unchanged leave the table alone; an alias change reconciles
        the table for the article's old and new URL. Every path reports success. */
    method OnContentBeforeSave(context: string, isNew: bool, incomingAlias: string,
                               storedAlias: string, builtUrl: string, date: string)
      returns (ok: bool)
      modifies db
      ensures ok
      ensures context != ArticleContext || isNew || incomingAlias == storedAlias ==>
        db.rows == old(db.rows)
      ensures context == ArticleContext && !isNew && incomingAlias != storedAlias ==>
        var oldUrl := SiteUrl(builtUrl);
        db.rows == Reconcile(old(db.rows), oldUrl, RenamedUrl(oldUrl, storedAlias, incomingAlias), date)
    {
      if context != ArticleContext || isNew {
        return true;
      }
      if incomingAlias == storedAlias {
        return true;
      }
      var oldUrl := StrReplace(AdminSegment, "", builtUrl);
      var newUrl := StrReplace(storedAlias, incomingAlias, oldUrl);
      DeleteRedirect(oldUrl);
      UpdateRedirect(oldUrl, NewUrl, newUrl);
      CreateRedirect(oldUrl, newUrl, date);
      CleanUselessRedirect();
      return true;
    }
  }
}
