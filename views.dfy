/** The list-building parts of QbixSolutions/views.py. A table is a sequence
    of rows in the model's default ordering; `QuerySet.filter`/`exclude`
    keep the rows a predicate accepts, in order, and `[:3]` takes a prefix.
    Rendering, pagination, messages and database writes are not modelled. */
module Views {
  import opened Wrappers
  import opened Models

  /** The rows of `s` that satisfy `p`, in order. */
  function Where<T(!new)>(s: seq<T>, p: T -> bool): (r: seq<T>)
    ensures |r| <= |s|
    ensures forall x :: x in r <==> x in s && p(x)
  {
    if s == [] then [] else (if p(s[0]) then [s[0]] else []) + Where(s[1..], p)
  }

  /** Filtering keeps the order of the table: it works block by block. */
  lemma {:induction false} WhereAppend<T(!new)>(a: seq<T>, b: seq<T>, p: T -> bool)
    ensures Where(a + b, p) == Where(a, p) + Where(b, p)
  {
    if a == [] {
      assert a + b == b;
    } else {
      assert (a + b)[0] == a[0];
      assert (a + b)[1..] == a[1..] + b;
      WhereAppend(a[1..], b, p);
    }
  }

  /** `a` comes before `b` in `s`, both occurring in it. */
  ghost predicate Before<T>(s: seq<T>, a: T, b: T) {
    exists i, j :: 0 <= i < j < |s| && s[i] == a && s[j] == b
  }

  /** The kept rows appear in table order: any two of them occur in that
      order in the table itself. */
  lemma {:induction false} WhereKeepsOrder<T(!new)>(s: seq<T>, p: T -> bool)
    ensures forall i, j :: 0 <= i < j < |Where(s, p)| ==> Before(s, Where(s, p)[i], Where(s, p)[j])
  {
    if s != [] {
      var r, t := Where(s, p), Where(s[1..], p);
      WhereKeepsOrder(s[1..], p);
      forall i, j | 0 <= i < j < |r| ensures Before(s, r[i], r[j]) {
        if p(s[0]) && i == 0 {
          assert r[j] == t[j - 1] && t[j - 1] in s[1..];
          var b :| 0 <= b < |s| - 1 && s[1..][b] == r[j];
          assert s[0] == r[0] && s[b + 1] == r[j];
        } else {
          var d := if p(s[0]) then 1 else 0;
          assert r == (if p(s[0]) then [s[0]] else []) + t;
          assert r[i] == t[i - d] && r[j] == t[j - d];
          assert 0 <= i - d < j - d < |t|;
          assert Before(s[1..], t[i - d], t[j - d]);
          var a, b :| 0 <= a < b < |s| - 1 && s[1..][a] == r[i] && s[1..][b] == r[j];
          assert s[a + 1] == r[i] && s[b + 1] == r[j];
        }
      }
    }
  }

  /** No row occurs twice, as in a table whose slug is `unique`. */
  ghost predicate Distinct<T>(s: seq<T>) {
    forall i, j :: 0 <= i < j < |s| ==> s[i] != s[j]
  }

  /** Filtering twice is filtering once by both predicates. */
  lemma {:induction false} WhereWhere<T(!new)>(s: seq<T>, p: T -> bool, q: T -> bool, both: T -> bool)
    requires forall x :: both(x) == (p(x) && q(x))
    ensures Where(Where(s, p), q) == Where(s, both)
  {
    if s != [] {
      WhereWhere(s[1..], p, q, both);
      var h := if p(s[0]) then [s[0]] else [];
      assert Where(s, p) == h + Where(s[1..], p);
      WhereAppend(h, Where(s[1..], p), q);
      if p(s[0]) {
        assert [s[0]][1..] == [];
      }
    }
  }

  /** In a table without repeated rows, a prefix of the kept rows takes the
      first ones: an accepted row before a row of the prefix is in the prefix
      too. */
  lemma {:induction false} WherePrefixIsFirst<T(!new)>(s: seq<T>, p: T -> bool, m: nat)
    requires m <= |Where(s, p)|
    ensures Distinct(s) ==>
      forall a, b :: 0 <= a < b < |s| && p(s[a]) && s[b] in Where(s, p)[..m] ==> s[a] in Where(s, p)[..m]
  {
    if s != [] && Distinct(s) {
      var w, t := Where(s, p), Where(s[1..], p);
      var d := if p(s[0]) then 1 else 0;
      assert w == (if p(s[0]) then [s[0]] else []) + t;
      assert Distinct(s[1..]) by {
        forall i, j | 0 <= i < j < |s| - 1 ensures s[1..][i] != s[1..][j] {
          assert s[1..][i] == s[i + 1] && s[1..][j] == s[j + 1];
        }
      }
      WherePrefixIsFirst(s[1..], p, if m >= d then m - d else 0);
      forall a, b | 0 <= a < b < |s| && p(s[a]) && s[b] in w[..m] ensures s[a] in w[..m] {
        if a == 0 {
          assert w[..m][0] == s[0];
        } else {
          assert s[b] != s[0];
          assert m >= d && w[..m] == w[..d] + t[..m - d];
          assert s[b] in t[..m - d];
          assert s[1..][b - 1] == s[b] && s[1..][a - 1] == s[a];
        }
      }
    }
  }

  /** A filter that accepts every row changes nothing. */
  lemma {:induction false} WhereAll<T(!new)>(s: seq<T>, p: T -> bool)
    requires forall x :: x in s ==> p(x)
    ensures Where(s, p) == s
  {
    if s != [] {
      assert s[0] in s;
      assert forall x :: x in s[1..] ==> x in s;
      WhereAll(s[1..], p);
      assert s == [s[0]] + s[1..];
    }
  }

  /** A filter that rejects every row leaves nothing. */
  lemma {:induction false} WhereNone<T(!new)>(s: seq<T>, p: T -> bool)
    requires forall x :: x in s ==> !p(x)
    ensures Where(s, p) == []
  {
    if s != [] {
      assert s[0] in s;
      assert forall x :: x in s[1..] ==> x in s;
      WhereNone(s[1..], p);
    }
  }

  /** `[:3]`. */
  function FirstThree<T>(s: seq<T>): (r: seq<T>)
    ensures |r| == if |s| < 3 then |s| else 3
    ensures r == s[..|r|]
    ensures forall x :: x in r ==> x in s
  {
    if |s| < 3 then s else s[..3]
  }

  /** `if param:` on `request.GET.get(name)`: present and not empty. */
  predicate Given(param: Option<string>) {
    param.Some? && param.value != []
  }

  /** `portfolio`: all items, or only those of the requested category. */
  function PortfolioListing(items: seq<Portfolio>, category: Option<string>): (r: seq<Portfolio>)
    ensures Given(category) ==> forall x :: x in r <==> x in items && x.category == category.value
    ensures !Given(category) ==> r == items
    ensures forall i, j :: 0 <= i < j < |r| ==> Before(items, r[i], r[j])
  {
    var inCategory := (x: Portfolio) => Given(category) && x.category == category.value;
    WhereKeepsOrder(items, inCategory);
    if Given(category) then Where(items, inCategory) else items
  }

  /** `blog`: all posts, or only those of the requested category. */
  function BlogListing(posts: seq<BlogPost>, category: Option<string>): (r: seq<BlogPost>)
    ensures Given(category) ==> forall x :: x in r <==> x in posts && x.category == category.value
    ensures !Given(category) ==> r == posts
    ensures forall i, j :: 0 <= i < j < |r| ==> Before(posts, r[i], r[j])
  {
    var inCategory := (x: BlogPost) => Given(category) && x.category == category.value;
    WhereKeepsOrder(posts, inCategory);
    if Given(category) then Where(posts, inCategory) else posts
  }

  /** The category filter keeps the table's order. */
  lemma PortfolioListingOrder(a: seq<Portfolio>, b: seq<Portfolio>, category: Option<string>)
    ensures PortfolioListing(a + b, category) == PortfolioListing(a, category) + PortfolioListing(b, category)
  {
    if Given(category) {
      WhereAppend(a, b, (x: Portfolio) => Given(category) && x.category == category.value);
    }
  }

  /** `available_categories`: the choices whose code some item uses, in the
      order of `CATEGORY_CHOICES`. */
  function AvailableCategories(items: seq<Portfolio>): (r: seq<(string, string)>)
    ensures forall ch :: ch in r <==> ch in CategoryChoices && exists x :: x in items && x.category == ch.0
    ensures forall i, j :: 0 <= i < j < |r| ==> Before(CategoryChoices, r[i], r[j])
  {
    var existing := set x | x in items :: x.category;
    var used := (ch: (string, string)) => ch.0 in existing;
    WhereKeepsOrder(CategoryChoices, used);
    Where(CategoryChoices, used)
  }

  /** When every item is in the "Other" category, only that choice is offered. */
  lemma OnlyOtherAvailable(items: seq<Portfolio>)
    requires items != [] && forall x :: x in items ==> x.category == "Other"
    ensures AvailableCategories(items) == [("Other", "Other")]
  {
    var existing := set x | x in items :: x.category;
    assert items[0] in items;
    assert existing == {"Other"};
    var p := (ch: (string, string)) => ch.0 in existing;
    var init, last := CategoryChoices[..10], [("Other", "Other")];
    OtherIsLastChoice();
    WhereNone(init, p);
    WhereSingleton(("Other", "Other"), p);
    WhereAppend(init, last, p);
  }

  /** "Other" is the last choice, and the only one with that code. */
  lemma OtherIsLastChoice()
    ensures CategoryChoices == CategoryChoices[..10] + [("Other", "Other")]
    ensures forall ch :: ch in CategoryChoices[..10] ==> ch.0 != "Other"
  {
    assert forall ch :: ch in CategoryChoices[..10] ==> ch.0[0] != 'O';
  }

  /** A one-row table whose row is accepted is unchanged. */
  lemma WhereSingleton<T(!new)>(x: T, p: T -> bool)
    requires p(x)
    ensures Where([x], p) == [x]
  {
    assert [x][1..] == [];
  }

  /** `careers`: the active listings, then only the requested department. */
  function JobListings(jobs: seq<JobListing>, department: Option<string>): (r: seq<JobListing>)
    ensures forall j :: j in r <==> j in jobs && j.active && (Given(department) ==> j.department == department.value)
    ensures forall i, k :: 0 <= i < k < |r| ==> Before(jobs, r[i], r[k])
  {
    var active := (j: JobListing) => j.active;
    var inDepartment := (j: JobListing) => Given(department) && j.department == department.value;
    var both := (j: JobListing) => j.active && Given(department) && j.department == department.value;
    var open := Where(jobs, active);
    WhereKeepsOrder(jobs, active);
    WhereWhere(jobs, active, inDepartment, both);
    WhereKeepsOrder(jobs, both);
    if Given(department) then Where(open, inDepartment) else open
  }

  /** `departments`: the departments of the active listings. */
  function Departments(jobs: seq<JobListing>): (r: set<string>)
    ensures forall d :: d in r <==> exists j :: j in jobs && j.active && j.department == d
  {
    set j | j in jobs && j.active :: j.department
  }

  /** Every department offered can be selected and lists at least one job. */
  lemma DepartmentsNonEmptyListing(jobs: seq<JobListing>, d: string)
    requires d in Departments(jobs)
    ensures JobListings(jobs, Some(d)) != []
  {
    var j :| j in jobs && j.active && j.department == d;
    assert j in JobListings(jobs, Some(d));
  }

  /** `categories` of the blog page: the categories of all posts. */
  function BlogCategories(posts: seq<BlogPost>): (r: set<string>)
    ensures forall c :: c in r <==> exists x :: x in posts && x.category == c
  {
    set x | x in posts :: x.category
  }

  /** `related_services`: up to three other services, the first ones in order. */
  function RelatedServices(services: seq<Service>, slug: string): (r: seq<Service>)
    ensures |r| <= 3
    ensures forall x :: x in r ==> x in services && x.slug != slug
    ensures |r| < 3 ==> forall x :: x in services && x.slug != slug ==> x in r
    ensures forall i, j :: 0 <= i < j < |r| ==> Before(services, r[i], r[j])
    ensures Distinct(services) ==>
      forall a, b :: 0 <= a < b < |services| && services[b] in r && services[a].slug != slug ==> services[a] in r
  {
    var other := (x: Service) => x.slug != slug;
    var w := Where(services, other);
    WhereKeepsOrder(services, other);
    WherePrefixIsFirst(services, other, |FirstThree(w)|);
    FirstThree(w)
  }

  /** `related_projects`: up to three other items of the shown item's category. */
  function RelatedProjects(items: seq<Portfolio>, shown: Portfolio): (r: seq<Portfolio>)
    ensures |r| <= 3
    ensures forall x :: x in r ==> x in items && x.slug != shown.slug && x.category == shown.category
    ensures |r| < 3 ==> forall x :: x in items && x.slug != shown.slug && x.category == shown.category ==> x in r
    ensures forall i, j :: 0 <= i < j < |r| ==> Before(items, r[i], r[j])
    ensures Distinct(items) ==>
      forall a, b :: (0 <= a < b < |items| && items[b] in r &&
                      items[a].slug != shown.slug && items[a].category == shown.category) ==> items[a] in r
  {
    var other := (x: Portfolio) => x.slug != shown.slug;
    var same := (x: Portfolio) => x.category == shown.category;
    var related := (x: Portfolio) => x.slug != shown.slug && x.category == shown.category;
    WhereWhere(items, other, same, related);
    var w := Where(items, related);
    WhereKeepsOrder(items, related);
    WherePrefixIsFirst(items, related, |FirstThree(w)|);
    FirstThree(Where(Where(items, other), same))
  }

  /** `related_posts`: up to three other posts of the shown post's category. */
  function RelatedPosts(posts: seq<BlogPost>, shown: BlogPost): (r: seq<BlogPost>)
    ensures |r| <= 3
    ensures forall x :: x in r ==> x in posts && x.slug != shown.slug && x.category == shown.category
    ensures |r| < 3 ==> forall x :: x in posts && x.slug != shown.slug && x.category == shown.category ==> x in r
    ensures forall i, j :: 0 <= i < j < |r| ==> Before(posts, r[i], r[j])
    ensures Distinct(posts) ==>
      forall a, b :: (0 <= a < b < |posts| && posts[b] in r &&
                      posts[a].slug != shown.slug && posts[a].category == shown.category) ==> posts[a] in r
  {
    var other := (x: BlogPost) => x.slug != shown.slug;
    var same := (x: BlogPost) => x.category == shown.category;
    var related := (x: BlogPost) => x.slug != shown.slug && x.category == shown.category;
    WhereWhere(posts, other, same, related);
    var w := Where(posts, related);
    WhereKeepsOrder(posts, related);
    WherePrefixIsFirst(posts, related, |FirstThree(w)|);
    FirstThree(Where(Where(posts, other), same))
  }

  /** The shown item is never among its own related items. */
  lemma RelatedExcludesShown(items: seq<Portfolio>, shown: Portfolio, posts: seq<BlogPost>, post: BlogPost)
    ensures shown !in RelatedProjects(items, shown)
    ensures post !in RelatedPosts(posts, post)
  {
  }

  /** `newsletter_subscribe`'s redirect target: the `Referer` header when
      the request carries one, otherwise the `home` view. */
  function NewsletterRedirect(referer: Option<string>): (target: string)
    ensures referer.Some? ==> target == referer.value
    ensures referer.None? ==> target == "home"
  {
    match referer
    case Some(url) => url
    case None => "home"
  }
}
