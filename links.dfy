/** The link rewrites the item observer applies to a row that points at a
    menu-aware model: on `created` the model's identifier is appended to the
    link, on `updated` it replaces the link's last `/` segment. */
module MenuLinks {
  import opened Wrappers
  import opened PhpStrings

  /** `created`'s new link: the old link (empty when null), `/`, the
      identifier. It ends with the identifier, and when the identifier has
      no `/` the old link is its base. */
  function CreatedLink(link: Option<string>, identifier: string): (r: string)
    ensures |identifier| < |r| && r[|r| - |identifier|..] == identifier
    ensures '/' !in identifier ==> BaseLink(Some(r)) == link.GetOr("")
  {
    var r := link.GetOr("") + "/" + identifier;
    assert r[|r| - |identifier|..] == identifier;
    if '/' !in identifier then BaseOfSegment(link.GetOr(""), identifier); r else r
  }

  /** `updated`'s base link: `$link ?? ''` exploded on `/`, the last piece
      dropped, the rest imploded. The source tests whether the last piece
      is the identifier, but both of its branches drop that piece, so the
      base does not depend on the identifier. The base is what precedes the
      link's last `/`, or empty when the link has none. */
  function BaseLink(link: Option<string>): (r: string)
    ensures '/' !in link.GetOr("") ==> r == ""
    ensures '/' in link.GetOr("") ==>
      var l := link.GetOr("");
      |r| < |l| && l[..|r|] == r && l[|r|] == '/' && '/' !in l[|r| + 1..]
  {
    var l := link.GetOr("");
    var parts := Split(l, '/');
    var b := Join(parts[..|parts| - 1], '/');
    BaseShape(l, parts, b);
    b
  }

  /** What dropping the last piece leaves of a string its `/`-free pieces
      join to. */
  lemma BaseShape(l: string, parts: seq<string>, b: string)
    requires |parts| >= 1 && Join(parts, '/') == l
    requires forall i :: 0 <= i < |parts| ==> '/' !in parts[i]
    requires b == Join(parts[..|parts| - 1], '/')
    ensures '/' !in l ==> b == ""
    ensures '/' in l ==> |b| < |l| && l[..|b|] == b && l[|b|] == '/' && '/' !in l[|b| + 1..]
  {
    if |parts| == 1 {
      assert l == parts[0];
      assert parts[..0] == [];
    } else {
      var init, last := parts[..|parts| - 1], parts[|parts| - 1];
      assert parts == init + [last];
      BaseOfPieces(l, init, last);
    }
  }

  /** A string made of some pieces, `/` and a `/`-free last piece. */
  lemma BaseOfPieces(l: string, init: seq<string>, last: string)
    requires |init| >= 1 && '/' !in last && Join(init + [last], '/') == l
    ensures var b := Join(init, '/');
      '/' in l && |b| < |l| && l[..|b|] == b && l[|b|] == '/' && '/' !in l[|b| + 1..]
  {
    JoinAppend(init, [last], '/');
    var b := Join(init, '/');
    assert l == b + ['/'] + last;
    assert l[..|b|] == b && l[|b| + 1..] == last;
  }

  /** `updated`'s new link: the base link, `/`, the identifier. It ends
      with the identifier, and when the identifier has no `/` it keeps the
      old link's base. */
  function UpdatedLink(link: Option<string>, identifier: string): (r: string)
    ensures |identifier| < |r| && r[|r| - |identifier|..] == identifier
    ensures '/' !in identifier ==> BaseLink(Some(r)) == BaseLink(link)
  {
    var r := BaseLink(link) + "/" + identifier;
    assert r[|r| - |identifier|..] == identifier;
    if '/' !in identifier then BaseOfSegment(BaseLink(link), identifier); r else r
  }

  /** The base of a link that ends in a `/` segment is what precedes that
      segment. */
  lemma BaseOfSegment(base: string, segment: string)
    requires '/' !in segment
    ensures BaseLink(Some(base + "/" + segment)) == base
  {
    SplitAround(base, segment, '/');
    assert base + "/" + segment == base + ['/'] + segment;
    var parts := Split(base, '/') + Split(segment, '/');
    assert Split(segment, '/') == [segment];
    assert parts[..|parts| - 1] == Split(base, '/');
  }

  /** `updated` replaces the last segment, whatever it was, by the
      identifier. */
  lemma UpdatedReplacesLast(base: string, segment: string, identifier: string)
    requires '/' !in segment
    ensures UpdatedLink(Some(base + "/" + segment), identifier) == base + "/" + identifier
  {
    BaseOfSegment(base, segment);
  }

  /** A link without `/`, or no link at all, becomes `/` and the
      identifier. */
  lemma UpdatedSingleSegment(link: Option<string>, identifier: string)
    requires '/' !in link.GetOr("")
    ensures UpdatedLink(link, identifier) == "/" + identifier
  {
    assert Split(link.GetOr(""), '/') == [link.GetOr("")];
  }

  /** A later `updated` keeps the link `created` wrote, when the identifier
      has no `/`. */
  lemma UpdatedAfterCreated(link: Option<string>, identifier: string)
    requires '/' !in identifier
    ensures UpdatedLink(Some(CreatedLink(link, identifier)), identifier) == CreatedLink(link, identifier)
  {
    BaseOfSegment(link.GetOr(""), identifier);
  }

  /** `updated` is idempotent when the identifier has no `/`. */
  lemma UpdatedIdempotent(link: Option<string>, identifier: string)
    requires '/' !in identifier
    ensures UpdatedLink(Some(UpdatedLink(link, identifier)), identifier) == UpdatedLink(link, identifier)
  {
    BaseOfSegment(BaseLink(link), identifier);
  }

  /** When the identifier itself holds a `/`, only its last piece is
      dropped, so every update grows the link by one piece. */
  lemma SlashedIdentifierGrows()
    ensures UpdatedLink(Some("/a/b"), "a/b") == "/a/a/b"
  {
    assert "/a/b" == "/a" + "/" + "b";
    BaseOfSegment("/a", "b");
    assert "/a" + "/" + "a/b" == "/a/a/b";
  }
}
