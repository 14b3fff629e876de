/**
 * Tiddler.prototype.uri: the resource URI of a tiddler, built from its host, its
 * container (a bag, else a recipe) and its title, each user-supplied segment passed
 * through encodeURIComponent. The two configuration errors the source reports on its
 * event bus are returned as `Err` values here.
 */
module Addressing {
  import opened Wrappers
  import opened UriComponent

  /** JavaScript truthiness of a property that holds a string or is undefined. */
  predicate Truthy(o: Option<string>) {
    o.Some? && o.value != ""
  }

  /** The configuration errors of uri(). */
  datatype UriError = HostRequired | NoContainer

  /** The `msg` the source attaches to each error. */
  function Message(e: UriError): string {
    match e
    case HostRequired => "host required"
    case NoContainer => "no container data provided, bag or recipe required"
  }

  /** Where a tiddler lives on its host. */
  datatype Container = Bag(name: string) | Recipe(name: string)

  /** The container uri() picks: the bag when it is truthy, otherwise the recipe when that is. */
  function ContainerOf(bag: Option<string>, recipe: Option<string>): Option<Container> {
    if Truthy(bag) then Some(Bag(bag.value))
    else if Truthy(recipe) then Some(Recipe(recipe.value))
    else None
  }

  /** The path segment naming a kind of container. */
  function KindSegment(c: Container): string {
    match c
    case Bag(_) => "bags"
    case Recipe(_) => "recipes"
  }

  /** What a URI of a tiddler says: its host, its container and its title. */
  datatype Address = Address(host: string, container: Container, title: string)

  /** uri(), with the same tests in the same order as the source. */
  function TiddlerUri(host: Option<string>, bag: Option<string>, recipe: Option<string>, title: string)
    : (r: Result<string, UriError>)
    ensures r == Err(HostRequired) <==> !Truthy(host)
    ensures r == Err(NoContainer) <==> Truthy(host) && !Truthy(bag) && !Truthy(recipe)
    ensures r.Ok? <==> Truthy(host) && ContainerOf(bag, recipe).Some?
  {
    if !Truthy(host) then Err(HostRequired)
    else
      var container :=
        if !Truthy(bag) then
          if Truthy(recipe) then Some("recipes/" + Encode(recipe.value)) else None
        else Some("bags/" + Encode(bag.value));
      if container.None? then Err(NoContainer)
      else
        Ok(host.value + "/" + container.value + "/tiddlers/" + Encode(title))
  }

  /** The URI of a tiddler at a given address, segment by segment. */
  function Assembled(host: string, c: Container, title: string): string {
    host + "/" + KindSegment(c) + "/" + Encode(c.name) + "/" + "tiddlers" + "/" + Encode(title)
  }

  /** Splits at the last "/": what comes before it and the final segment. */
  function SplitLast(u: string): (r: Option<(string, string)>)
    ensures r.Some? ==> u == r.value.0 + "/" + r.value.1 && '/' !in r.value.1
    ensures r.None? ==> '/' !in u
    decreases |u|
  {
    if u == [] then None
    else if u[|u| - 1] == '/' then Some((u[..|u| - 1], []))
    else
      match SplitLast(u[..|u| - 1])
      case None => None
      case Some((front, last)) =>
        assert u == u[..|u| - 1] + [u[|u| - 1]];
        Some((front, last + [u[|u| - 1]]))
  }

  lemma NoSlashAfter(u: string, front: string, last: string)
    requires u == front + "/" + last && '/' !in last
    ensures u[|front|] == '/'
    ensures forall k :: |front| < k < |u| ==> u[k] != '/'
  {
    forall k | |front| < k < |u| ensures u[k] != '/' {
      assert u[k] == last[k - |front| - 1];
    }
  }

  /** A string ending in "/" and a segment without "/" splits there. */
  lemma SplitLastOf(front: string, last: string)
    requires '/' !in last
    ensures SplitLast(front + "/" + last) == Some((front, last))
  {
    var u := front + "/" + last;
    assert u[|front|] == '/';
    var r := SplitLast(u);
    var front', last' := r.value.0, r.value.1;
    NoSlashAfter(u, front, last);
    NoSlashAfter(u, front', last');
    assert u[|front'|] == '/';
    assert |front| == |front'|;
    assert front' == u[..|front|] == front;
    assert last' == u[|front| + 1..] == last;
  }

  /** The four segments a tiddler URI ends with: host, container kind, container name, title. */
  function Segments(u: string): Option<(string, string, string, string)> {
    match SplitLast(u)
    case None => None
    case Some((rest, title)) =>
      match SplitLast(rest)
      case None => None
      case Some((rest', tiddlers)) =>
        if tiddlers != "tiddlers" then None
        else
          match SplitLast(rest')
          case None => None
          case Some((rest'', name)) =>
            match SplitLast(rest'')
            case None => None
            case Some((host, kind)) => Some((host, kind, name, title))
  }

  /** The address named by a container kind and the decoded name and title. */
  function ReadAddress(host: string, kind: string, name: Option<string>, title: Option<string>): Option<Address> {
    if name.None? || title.None? then None
    else if kind == "bags" then Some(Address(host, Bag(name.value), title.value))
    else if kind == "recipes" then Some(Address(host, Recipe(name.value), title.value))
    else None
  }

  /** The inverse of uri(): reads host, container and title back from a URI. */
  function ParseUri(u: string): Option<Address> {
    match Segments(u)
    case None => None
    case Some((host, kind, name, title)) => ReadAddress(host, kind, Decode(name), Decode(title))
  }

  lemma SegmentsOf(host: string, kind: string, name: string, title: string)
    requires '/' !in kind && '/' !in name && '/' !in title
    ensures Segments(host + "/" + kind + "/" + name + "/" + "tiddlers" + "/" + title) == Some((host, kind, name, title))
  {
    var r3 := host + "/" + kind;
    var r2 := r3 + "/" + name;
    var r1 := r2 + "/" + "tiddlers";
    SplitLastOf(r1, title);
    assert '/' !in "tiddlers";
    SplitLastOf(r2, "tiddlers");
    SplitLastOf(r3, name);
    SplitLastOf(host, kind);
  }

  lemma SegmentsOfAssembled(host: string, c: Container, title: string)
    ensures Segments(Assembled(host, c, title)) == Some((host, KindSegment(c), Encode(c.name), Encode(title)))
  {
    EncodeHasNoSlash(c.name);
    EncodeHasNoSlash(title);
    SegmentsOf(host, KindSegment(c), Encode(c.name), Encode(title));
  }

  lemma ParseAssembled(host: string, c: Container, title: string)
    ensures ParseUri(Assembled(host, c, title)) == Some(Address(host, c, title))
  {
    SegmentsOfAssembled(host, c, title);
    DecodeEncode(c.name);
    DecodeEncode(title);
  }

  lemma Regroup(h: string, kind: string, n: string, t: string)
    ensures h + "/" + (kind + "/" + n) + "/tiddlers/" + t == h + "/" + kind + "/" + n + "/" + "tiddlers" + "/" + t
  {
  }

  /** uri() has ParseUri as its inverse: the URI it builds reads back as the tiddler's address. */
  lemma ParseTiddlerUri(host: Option<string>, bag: Option<string>, recipe: Option<string>, title: string)
    requires TiddlerUri(host, bag, recipe, title).Ok?
    ensures ParseUri(TiddlerUri(host, bag, recipe, title).value) == Some(Address(host.value, ContainerOf(bag, recipe).value, title))
  {
    var c := ContainerOf(bag, recipe).value;
    var h, n, t := host.value, Encode(c.name), Encode(title);
    assert TiddlerUri(host, bag, recipe, title).value == Assembled(h, c, title) by {
      Regroup(h, KindSegment(c), n, t);
    }
    ParseAssembled(h, c, title);
  }

  /** A URI determines the host, the container and the title it was built from. */
  lemma UriDeterminesAddress(host: Option<string>, bag: Option<string>, recipe: Option<string>, title: string,
                             host': Option<string>, bag': Option<string>, recipe': Option<string>, title': string)
    requires TiddlerUri(host, bag, recipe, title).Ok?
    requires TiddlerUri(host, bag, recipe, title) == TiddlerUri(host', bag', recipe', title')
    ensures host == host' && ContainerOf(bag, recipe) == ContainerOf(bag', recipe') && title == title'
  {
    ParseTiddlerUri(host, bag, recipe, title);
    ParseTiddlerUri(host', bag', recipe', title');
  }

  /** With a truthy bag the recipe plays no part. */
  lemma BagTakesPrecedence(host: Option<string>, bag: Option<string>, recipe: Option<string>, recipe': Option<string>, title: string)
    requires Truthy(bag)
    ensures TiddlerUri(host, bag, recipe, title) == TiddlerUri(host, bag, recipe', title)
  {
  }

  lemma RegroupBag(h: string, b: string, t: string)
    ensures h + "/" + ("bags/" + b) + "/tiddlers/" + t == h + "/bags/" + b + "/tiddlers/" + t
  {
  }

  lemma RegroupRecipe(h: string, r: string, t: string)
    ensures h + "/" + ("recipes/" + r) + "/tiddlers/" + t == h + "/recipes/" + r + "/tiddlers/" + t
  {
  }

  /** The shape of the URI for a bag. */
  lemma UriOfBag(host: Option<string>, bag: Option<string>, recipe: Option<string>, title: string)
    requires Truthy(host) && Truthy(bag)
    ensures TiddlerUri(host, bag, recipe, title) == Ok(host.value + "/bags/" + Encode(bag.value) + "/tiddlers/" + Encode(title))
  {
    var h, b, t := host.value, Encode(bag.value), Encode(title);
    RegroupBag(h, b, t);
  }

  /** The shape of the URI for a recipe, when there is no bag. */
  lemma UriOfRecipe(host: Option<string>, bag: Option<string>, recipe: Option<string>, title: string)
    requires Truthy(host) && !Truthy(bag) && Truthy(recipe)
    ensures TiddlerUri(host, bag, recipe, title) == Ok(host.value + "/recipes/" + Encode(recipe.value) + "/tiddlers/" + Encode(title))
  {
    var h, r, t := host.value, Encode(recipe.value), Encode(title);
    RegroupRecipe(h, r, t);
  }

  lemma BagUriText(host: string, name: string, title: string)
    requires host == "http://x" && name == "b" && title == "a%20b"
    ensures host + "/bags/" + name + "/tiddlers/" + title == "http://x/bags/b/tiddlers/a%20b"
  {
  }

  lemma RecipeUriText(host: string, name: string, title: string)
    requires host == "http://x" && name == "r" && title == "a%20b"
    ensures host + "/recipes/" + name + "/tiddlers/" + title == "http://x/recipes/r/tiddlers/a%20b"
  {
  }

  /** The URI of the tiddler "a b" in the bag "b" on http://x. */
  lemma BagUriExample()
    ensures TiddlerUri(Some("http://x"), Some("b"), None, "a b") == Ok("http://x/bags/b/tiddlers/a%20b")
  {
    var host, name, title := "http://x", "b", "a b";
    var t, b := Encode(title), Encode(name);
    assert t == "a%20b" by { EncodeSpace(); }
    assert b == "b" by { EncodeIdentity(name); assert IsUnreserved(name[0]); }
    UriOfBag(Some(host), Some(name), None, title);
    BagUriText(host, b, t);
  }

  /** The URI of the tiddler "a b" in the recipe "r" on http://x. */
  lemma RecipeUriExample()
    ensures TiddlerUri(Some("http://x"), None, Some("r"), "a b") == Ok("http://x/recipes/r/tiddlers/a%20b")
  {
    var host, name, title := "http://x", "r", "a b";
    var t, r := Encode(title), Encode(name);
    assert t == "a%20b" by { EncodeSpace(); }
    assert r == "r" by { EncodeIdentity(name); assert IsUnreserved(name[0]); }
    UriOfRecipe(Some(host), None, Some(name), title);
    RecipeUriText(host, r, t);
  }
}
