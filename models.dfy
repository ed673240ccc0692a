/** The records of QbixSolutions/models.py that the views and forms read, and
    the two comma-list accessors `Service.get_features_list` and
    `Portfolio.get_technologies_list`. Both accessors are the comprehension
    `[t.strip() for t in text.split(',') if t.strip()]`, modelled once as
    `ParseCommaList`. */
module Models {
  import opened Chars
  import opened Text

  datatype Service = Service(title: string, slug: string, features: string)

  datatype Portfolio = Portfolio(title: string, slug: string, category: string,
                                 technologies: string, featured: bool)

  datatype BlogPost = BlogPost(title: string, slug: string, category: string, featured: bool)

  datatype JobListing = JobListing(title: string, slug: string, department: string, active: bool)

  datatype NewsletterSubscriber = NewsletterSubscriber(email: string, active: bool)

  /** `Portfolio.CATEGORY_CHOICES`: (stored code, display name) pairs, in order. */
  const CategoryChoices: seq<(string, string)> := [
    ("E-commerce", "E-commerce Project"),
    ("Portfolio", "Portfolio Website"),
    ("Business", "Business Website"),
    ("SaaS", "SaaS Platform"),
    ("Mobile App", "Mobile Application"),
    ("Web App", "Web Application"),
    ("CMS", "CMS Website"),
    ("Booking", "Booking System"),
    ("Education", "Education Platform"),
    ("Healthcare", "Healthcare System"),
    ("Other", "Other")
  ]

  /** A list element the parser can produce: non-empty, stripped of Python
      whitespace at both ends, and without a comma. */
  predicate IsEntry(t: string) {
    t != [] && Stripped(t, PySpace) && ',' !in t
  }

  /** No piece holds a comma, as after `split(',')`. */
  predicate CommaFree(pieces: seq<string>) {
    forall k :: 0 <= k < |pieces| ==> ',' !in pieces[k]
  }

  /** Every element is an entry. */
  predicate AllEntries(xs: seq<string>) {
    forall k :: 0 <= k < |xs| ==> IsEntry(xs[k])
  }

  /** Strips every piece and drops those that strip to nothing. */
  function CleanPieces(pieces: seq<string>): (r: seq<string>)
    ensures |r| <= |pieces|
  {
    if pieces == [] then []
    else
      var t := Trim(pieces[0], PySpace);
      (if t == [] then [] else [t]) + CleanPieces(pieces[1..])
  }

  /** Cleaning comma-free pieces leaves only entries. */
  lemma {:induction false} CleanPiecesEntries(pieces: seq<string>)
    requires CommaFree(pieces)
    ensures AllEntries(CleanPieces(pieces))
  {
    if pieces != [] {
      var t := Trim(pieces[0], PySpace);
      TrimChars(pieces[0], PySpace);
      assert ',' !in pieces[0];
      assert CommaFree(pieces[1..]) by {
        forall k | 0 <= k < |pieces| - 1 ensures ',' !in pieces[1..][k] {
          assert pieces[1..][k] == pieces[k + 1];
        }
      }
      CleanPiecesEntries(pieces[1..]);
    }
  }

  /** The comma-separated entries of `text`, in order. */
  function ParseCommaList(text: string): (r: seq<string>)
    ensures forall k :: 0 <= k < |r| ==> IsEntry(r[k])
    ensures |r| <= Count(text, ',') + 1
  {
    var pieces := Split(text, ',');
    CleanPiecesEntries(pieces);
    CleanPieces(pieces)
  }

  /** `Service.get_features_list`. */
  function FeaturesList(s: Service): (r: seq<string>)
    ensures forall k :: 0 <= k < |r| ==> IsEntry(r[k])
    ensures |r| <= Count(s.features, ',') + 1
  {
    ParseCommaList(s.features)
  }

  /** `Portfolio.get_technologies_list`. */
  function TechnologiesList(p: Portfolio): (r: seq<string>)
    ensures forall k :: 0 <= k < |r| ==> IsEntry(r[k])
    ensures |r| <= Count(p.technologies, ',') + 1
  {
    ParseCommaList(p.technologies)
  }

  lemma {:induction false} CleanPiecesAppend(a: seq<string>, b: seq<string>)
    ensures CleanPieces(a + b) == CleanPieces(a) + CleanPieces(b)
  {
    if a == [] {
      assert a + b == b;
    } else {
      var x, rest := a[0], a[1..];
      assert a == [x] + rest;
      assert a + b == [x] + (rest + b);
      calc {
        CleanPieces(a + b);
        { CleanPiecesCons(x, rest + b); }
        CleanPieces([x]) + CleanPieces(rest + b);
        { CleanPiecesAppend(rest, b); }
        CleanPieces([x]) + CleanPieces(rest) + CleanPieces(b);
        { CleanPiecesCons(x, rest); }
        CleanPieces(a) + CleanPieces(b);
      }
    }
  }

  lemma CleanPiecesCons(x: string, rest: seq<string>)
    ensures CleanPieces([x] + rest) == CleanPieces([x]) + CleanPieces(rest)
  {
    assert ([x] + rest)[0] == x && ([x] + rest)[1..] == rest;
    assert [x][1..] == [];
  }

  /** Order: the entries of `a,b` are those of `a` followed by those of `b`. */
  lemma ParseAppend(a: string, b: string)
    ensures ParseCommaList(a + [','] + b) == ParseCommaList(a) + ParseCommaList(b)
  {
    SplitAppend(a, b, ',');
    CleanPiecesAppend(Split(a, ','), Split(b, ','));
  }

  /** Text without a comma gives its stripped self, or nothing when that is empty. */
  lemma ParseSinglePiece(t: string)
    requires ',' !in t
    ensures ParseCommaList(t) == (if Trim(t, PySpace) == [] then [] else [Trim(t, PySpace)])
  {
    SplitWithout(t, ',');
    assert Split(t, ',')[1..] == [];
  }

  /** A leading space never changes the entries. */
  lemma ParseLeadingSpace(t: string)
    ensures ParseCommaList([' '] + t) == ParseCommaList(t)
  {
    var pieces := Split(t, ',');
    assert ([' '] + t)[1..] == t;
    var pieces' := Split([' '] + t, ',');
    assert pieces'[0] == [' '] + pieces[0] && pieces'[1..] == pieces[1..];
    TrimLeadingSpace(pieces[0]);
    CleanPiecesByHead(pieces', pieces);
  }

  lemma TrimLeadingSpace(t: string)
    ensures Trim([' '] + t, PySpace) == Trim(t, PySpace)
  {
    assert PySpace(' ');
    assert ([' '] + t)[1..] == t;
    assert TrimStart([' '] + t, PySpace) == TrimStart(t, PySpace);
  }

  /** Pieces that strip alike and share their tail clean alike. */
  lemma CleanPiecesByHead(p: seq<string>, q: seq<string>)
    requires |p| > 0 && |q| > 0
    requires Trim(p[0], PySpace) == Trim(q[0], PySpace) && p[1..] == q[1..]
    ensures CleanPieces(p) == CleanPieces(q)
  {
  }

  /** Round trip: joining entries with ", " and parsing gives them back. */
  lemma {:induction false} ParseJoin(xs: seq<string>)
    requires forall k :: 0 <= k < |xs| ==> IsEntry(xs[k])
    ensures ParseCommaList(Join(xs, ", ")) == xs
  {
    if xs == [] {
      assert Split([], ',') == [[]];
    } else if |xs| == 1 {
      EntryParsesToItself(xs[0]);
    } else {
      var head, tail := xs[0], xs[1..];
      var rest := Join(tail, ", ");
      assert forall k :: 0 <= k < |tail| ==> tail[k] == xs[k + 1];
      calc {
        ParseCommaList(Join(xs, ", "));
        { JoinStep(xs); }
        ParseCommaList(head + [','] + ([' '] + rest));
        { ParseAppend(head, [' '] + rest); }
        ParseCommaList(head) + ParseCommaList([' '] + rest);
        { EntryParsesToItself(head); ParseLeadingSpace(rest); }
        [head] + ParseCommaList(rest);
        { ParseJoin(tail); }
        [head] + tail;
      }
      assert xs == [head] + tail;
    }
  }

  /** An entry parses to itself alone. */
  lemma EntryParsesToItself(t: string)
    requires IsEntry(t)
    ensures ParseCommaList(t) == [t]
  {
    ParseSinglePiece(t);
  }

  lemma JoinStep(xs: seq<string>)
    requires |xs| > 1
    ensures Join(xs, ", ") == xs[0] + [','] + ([' '] + Join(xs[1..], ", "))
  {
    assert Join(xs, ", ") == xs[0] + ", " + Join(xs[1..], ", ");
  }

  /** Idempotence: re-parsing the joined entries changes nothing. */
  lemma ParseIdempotent(text: string)
    ensures ParseCommaList(Join(ParseCommaList(text), ", ")) == ParseCommaList(text)
  {
    ParseJoin(ParseCommaList(text));
  }
}
