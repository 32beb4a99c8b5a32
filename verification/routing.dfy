/**
 The part of URL reversal the circulation views depend on. After a
 successful borrow or return they redirect to the route name
 "library:my_history". Django splits a namespaced name at its last ':'
 into a namespace and a route name. It then looks that route name up
 among the names registered in the namespace. When nothing matches and
 the text contains neither '/' nor '.', the redirect raises NoReverseMatch.
 */
module Routing {
  import opened Results

  /** The namespace `app_name` gives the library's routes. */
  const AppNamespace: string := "library"

  /** The target of the success redirects in borrow_book and return_book. */
  const HistoryTarget: string := "library:my_history"

  /** The `name=` of every route registered in the library namespace, as written. */
  const LibraryRouteNames: set<string> :=
    {"book_list", "book_detail", "borrow_book", "return_book", "library:my_history", "api_books", "api_book_detail"}

  /** The same routes with the history route named without the namespace prefix. */
  const PlainRouteNames: set<string> :=
    {"book_list", "book_detail", "borrow_book", "return_book", "my_history", "api_books", "api_book_detail"}

  /**
   Split a view name at its last ':' into namespace path and route name;
   None when it has no ':' at all.
   */
  function SplitLast(s: string): (r: Option<(string, string)>)
    ensures r.Some? ==> s == r.value.0 + ":" + r.value.1 && ':' !in r.value.1
    ensures r.None? ==> ':' !in s
    decreases |s|
  {
    if |s| == 0 then None
    else
      var init := s[..|s| - 1];
      var last := s[|s| - 1];
      assert s == init + [last];
      if last == ':' then Some((init, ""))
      else
        match SplitLast(init)
        case None => None
        case Some(parts) => Some((parts.0, parts.1 + [last]))
  }

  /** The last ':' of `p + ":" + q` is the one between them when `q` has none. */
  lemma {:induction false} SplitLastAt(p: string, q: string)
    requires ':' !in q
    ensures SplitLast(p + ":" + q) == Some((p, q))
    decreases |q|
  {
    var s := p + ":" + q;
    if |q| == 0 {
      assert s[..|s| - 1] == p;
    } else {
      var q' := q[..|q| - 1];
      assert q == q' + [q[|q| - 1]];
      assert s[..|s| - 1] == p + ":" + q';
      assert s[|s| - 1] == q[|q| - 1];
      SplitLastAt(p, q');
    }
  }

  /** `reverse(target)` finds a route of the library namespace. */
  predicate Reverses(target: string, names: set<string>) {
    match SplitLast(target)
    case None => false
    case Some(parts) => parts.0 == AppNamespace && parts.1 in names
  }

  /**
   `redirect(target)` produces a response: either the name reverses, or
   the text looks like a URL (contains '/' or '.') and is used as one.
   */
  predicate RedirectResolves(target: string, names: set<string>) {
    Reverses(target, names) || '/' in target || '.' in target
  }

  /** As registered, the history route cannot be reversed, so the success redirect raises. */
  lemma HistoryRedirectFails()
    ensures !RedirectResolves(HistoryTarget, LibraryRouteNames)
  {
    assert HistoryTarget == AppNamespace + ":" + "my_history";
    assert ':' !in "my_history";
    SplitLastAt(AppNamespace, "my_history");
    assert "my_history" !in LibraryRouteNames;
    assert '/' !in HistoryTarget && '.' !in HistoryTarget;
  }

  /** With the route named plainly "my_history", the same redirect resolves. */
  lemma HistoryRedirectResolvesWhenNamedPlainly()
    ensures RedirectResolves(HistoryTarget, PlainRouteNames)
  {
    assert HistoryTarget == AppNamespace + ":" + "my_history";
    assert ':' !in "my_history";
    SplitLastAt(AppNamespace, "my_history");
  }
}
