/** `dsDOM.#parseSelector` and the static `_selectorCache` it fills: a selector
    becomes the ordered list of items a handle is built from. String selectors
    are memoised under their literal text; nothing ever removes an entry. */
module SelectorResolver {
  import opened JsValues

  /** The cache: literal selector text to the nodes first resolved for it. */
  type Cache = map<string, seq<Node>>

  /** The host document. `query` stands for `document.querySelectorAll` (None when
      the string is not a valid selector, where the call throws a SyntaxError);
      `parse` for setting a `template`'s `innerHTML` and taking its child nodes. */
  datatype Document = Document(query: string -> Option<seq<Node>>, parse: string -> seq<Node>)

  /** `selector.startsWith('<') && selector.endsWith('>')` */
  predicate IsMarkup(s: string)
  {
    |s| > 0 && s[0] == '<' && s[|s| - 1] == '>'
  }

  /** The characters `String.prototype.trim` strips: ECMAScript white space
      (the Zs category included) and line terminators. */
  predicate IsWhiteSpace(c: char)
  {
    c in {'\t', '\n', '\U{000B}', '\U{000C}', '\r', ' ', '\U{00A0}', '\U{1680}',
          '\U{2000}', '\U{2001}', '\U{2002}', '\U{2003}', '\U{2004}', '\U{2005}',
          '\U{2006}', '\U{2007}', '\U{2008}', '\U{2009}', '\U{200A}', '\U{2028}',
          '\U{2029}', '\U{202F}', '\U{205F}', '\U{3000}', '\U{FEFF}'}
  }

  function TrimStart(s: string): (r: string)
    ensures |r| <= |s| && r == s[|s| - |r|..]
    ensures r == [] || !IsWhiteSpace(r[0])
    ensures forall i :: 0 <= i < |s| - |r| ==> IsWhiteSpace(s[i])
  {
    if s != [] && IsWhiteSpace(s[0]) then TrimStart(s[1..]) else s
  }

  function TrimEnd(s: string): (r: string)
    ensures |r| <= |s| && r == s[..|r|]
    ensures r == [] || !IsWhiteSpace(r[|r| - 1])
    ensures forall i :: |r| <= i < |s| ==> IsWhiteSpace(s[i])
  {
    if s != [] && IsWhiteSpace(s[|s| - 1]) then TrimEnd(s[..|s| - 1]) else s
  }

  /** `String.prototype.trim` */
  function Trim(s: string): string
  {
    TrimEnd(TrimStart(s))
  }

  /** The items a resolution produced, and the cache after it. */
  datatype Resolved = Resolved(items: seq<Value>, cache: Cache)

  /** Whether `after` keeps every entry of `before` unchanged. */
  predicate Grows(before: Cache, after: Cache)
  {
    before.Keys <= after.Keys && forall s :: s in before ==> after[s] == before[s]
  }

  /** One call of `#parseSelector(sel)` with the cache in state `cache`. */
  function Resolve(cache: Cache, doc: Document, sel: Value): (r: Result<Resolved>)
    ensures r.Ok? ==> Grows(cache, r.value.cache)
    ensures r.Err? ==> r.error == SyntaxError && sel.Str? && sel.s !in cache && !IsMarkup(sel.s)
    ensures r.Ok? && sel.Str? ==> sel.s in r.value.cache && r.value.items == Wrap(r.value.cache[sel.s])
    ensures !sel.Str? ==> r.Ok? && r.value.cache == cache
  {
    match sel
    case Str(s) =>
      if IsMarkup(s) then
        if s !in cache then
          var nodes := doc.parse(Trim(s));
          Ok(Resolved(Wrap(nodes), cache[s := nodes]))
        else
          Ok(Resolved(Wrap(cache[s]), cache))
      else if s in cache then
        Ok(Resolved(Wrap(cache[s]), cache))
      else
        (match doc.query(s)
         case None => Err(SyntaxError)
         case Some(nodes) => Ok(Resolved(Wrap(nodes), cache[s := nodes])))
    case DomNode(n) => Ok(Resolved(if n.html then [sel] else [], cache))
    case NodeList(nodes) => Ok(Resolved(Wrap(nodes), cache))
    case Array(elems) => Ok(Resolved(elems, cache))
    case _ => Ok(Resolved([], cache))
  }

  /** Markup is trimmed before parsing, but a string that starts with `<` and ends
      with `>` has no white space to trim: the parser sees the literal text. */
  lemma MarkupTrimIsIdentity(s: string)
    requires IsMarkup(s)
    ensures Trim(s) == s
  {
    assert !IsWhiteSpace('<') && !IsWhiteSpace('>');
  }

  /** A string misses the cache at most once: resolving it again returns the same
      items and leaves the cache as it was, whatever the document now holds. */
  lemma ResolveAgainIsStable(cache: Cache, doc: Document, later: Document, s: string)
    requires Resolve(cache, doc, Str(s)).Ok?
    ensures var first := Resolve(cache, doc, Str(s)).value;
            Resolve(first.cache, later, Str(s)) == Ok(first)
  {
  }

  /** On a miss, markup goes to the template parser and every other string to the
      document query; either way the entry is keyed by the literal string. */
  lemma ResolveMiss(cache: Cache, doc: Document, s: string)
    requires s !in cache
    ensures IsMarkup(s) ==>
      Resolve(cache, doc, Str(s)) == Ok(Resolved(Wrap(doc.parse(s)), cache[s := doc.parse(s)]))
    ensures !IsMarkup(s) && doc.query(s).Some? ==>
      Resolve(cache, doc, Str(s)) == Ok(Resolved(Wrap(doc.query(s).value), cache[s := doc.query(s).value]))
    ensures !IsMarkup(s) && doc.query(s).None? ==>
      Resolve(cache, doc, Str(s)) == Err(SyntaxError)
  {
    if IsMarkup(s) {
      MarkupTrimIsIdentity(s);
    }
  }

  /** Selectors that are not strings never touch the cache: an HTML element gives
      itself, a node list or an array an element-wise copy, anything else nothing. */
  lemma ResolveNonString(cache: Cache, doc: Document, sel: Value)
    requires !sel.Str?
    ensures var r := Resolve(cache, doc, sel);
      r.Ok? && r.value.cache == cache &&
      (sel.DomNode? && sel.node.html ==> r.value.items == [sel]) &&
      (sel.NodeList? ==> r.value.items == Wrap(sel.nodes)) &&
      (sel.Array? ==> r.value.items == sel.elems) &&
      (!(sel.DomNode? && sel.node.html) && !sel.NodeList? && !sel.Array? ==> r.value.items == [])
  {
  }

  /** Any number of resolutions only ever add cache entries. */
  lemma {:induction false} ResolveManyGrows(cache: Cache, doc: Document, sels: seq<Value>)
    ensures Grows(cache, ResolveMany(cache, doc, sels))
    decreases |sels|
  {
    if sels != [] {
      var next := Resolve(cache, doc, sels[0]);
      var c := if next.Ok? then next.value.cache else cache;
      ResolveManyGrows(c, doc, sels[1..]);
    }
  }

  /** The cache after resolving `sels` in turn (a throwing resolution leaves it as it was). */
  function ResolveMany(cache: Cache, doc: Document, sels: seq<Value>): Cache
    decreases |sels|
  {
    if sels == [] then cache
    else
      var next := Resolve(cache, doc, sels[0]);
      ResolveMany(if next.Ok? then next.value.cache else cache, doc, sels[1..])
  }

  /** The static `_selectorCache` map, shared by every handle. */
  class SelectorCache {
    var entries: Cache

    constructor ()
      ensures entries == map[]
    {
      entries := map[];
    }

    /** `#parseSelector` */
    method Parse(sel: Value, doc: Document) returns (r: Result<seq<Value>>)
      modifies this
      ensures var spec := Resolve(old(entries), doc, sel);
        match spec
        case Ok(res) => r == Ok(res.items) && entries == res.cache
        case Err(e) => r == Err(e) && entries == old(entries)
    {
      if sel.Str? {
        var s := sel.s;
        if |s| > 0 && s[0] == '<' && s[|s| - 1] == '>' {
          if s !in entries {
            var nodes := doc.parse(Trim(s));
            entries := entries[s := nodes];
            return Ok(Wrap(nodes));
          }
          return Ok(Wrap(entries[s]));
        }
        if s !in entries {
          var found := doc.query(s);
          if found.None? {
            return Err(SyntaxError);
          }
          entries := entries[s := found.value];
        }
        return Ok(Wrap(entries[s]));
      } else if sel.DomNode? && sel.node.html {
        return Ok([sel]);
      } else if sel.NodeList? {
        return Ok(Wrap(sel.nodes));
      } else if sel.Array? {
        return Ok(sel.elems);
      } else {
        return Ok([]);
      }
    }
  }
}
