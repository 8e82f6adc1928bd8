/** The remote repository as a tree of listing entries, and the reference answer of a
    traversal: the files a filter accepts, in listing order. */
module ContentTree {
  import opened FileNames

  type Byte = b: int | 0 <= b < 256

  /** One entry of a directory listing. A directory carries the listing of its own path;
      a file carries its raw bytes; `Other` stands for symbolic links and submodules. */
  datatype Entry =
    | Dir(name: string, path: string, children: seq<Entry>)
    | File(name: string, path: string, raw: seq<Byte>)
    | Other(name: string, path: string)

  /** The repository is what listing "/" returns; it is walked as a directory with that path. */
  function Root(repo: seq<Entry>): Entry
  {
    Dir("", "/", repo)
  }

  /** Every entry of the listings, each directory before its contents. */
  function Nodes(es: seq<Entry>): seq<Entry>
    decreases es
  {
    if |es| == 0 then [] else NodesOf(es[0]) + Nodes(es[1..])
  }

  function NodesOf(e: Entry): seq<Entry>
    decreases e
  {
    match e
    case Dir(_, _, cs) => [e] + Nodes(cs)
    case _ => [e]
  }

  predicate IsAcceptedFile(e: Entry, f: Filter)
  {
    e.File? && Accepts(f, e.name)
  }

  /** The entries of `s` that are files the filter accepts, in order. */
  function SelectAccepted(s: seq<Entry>, f: Filter): (r: seq<Entry>)
    ensures forall i :: 0 <= i < |r| ==> IsAcceptedFile(r[i], f)
  {
    if |s| == 0 then []
    else (if IsAcceptedFile(s[0], f) then [s[0]] else []) + SelectAccepted(s[1..], f)
  }

  /** The files a traversal should deliver: recurse into directories, keep accepted files,
      drop everything else. */
  function Matching(es: seq<Entry>, f: Filter): (r: seq<Entry>)
    ensures forall i :: 0 <= i < |r| ==> IsAcceptedFile(r[i], f)
    decreases es
  {
    if |es| == 0 then [] else MatchingIn(es[0], f) + Matching(es[1..], f)
  }

  function MatchingIn(e: Entry, f: Filter): (r: seq<Entry>)
    ensures forall i :: 0 <= i < |r| ==> IsAcceptedFile(r[i], f)
    decreases e
  {
    match e
    case Dir(_, _, cs) => Matching(cs, f)
    case File(name, _, _) => if Accepts(f, name) then [e] else []
    case Other(_, _) => []
  }

  /** The raw bytes of a list of file entries. */
  function RawContents(files: seq<Entry>): (r: seq<seq<Byte>>)
    requires forall i :: 0 <= i < |files| ==> files[i].File?
  {
    seq(|files|, i requires 0 <= i < |files| => files[i].raw)
  }

  /** The decoded text of every fetched file, empty ones included. */
  function Decoded(raws: seq<seq<Byte>>, decode: seq<Byte> -> string): seq<string>
  {
    seq(|raws|, i requires 0 <= i < |raws| => decode(raws[i]))
  }

  lemma {:induction false} SelectAcceptedAppend(a: seq<Entry>, b: seq<Entry>, f: Filter)
    ensures SelectAccepted(a + b, f) == SelectAccepted(a, f) + SelectAccepted(b, f)
  {
    if |a| > 0 {
      assert (a + b)[1..] == a[1..] + b;
      SelectAcceptedAppend(a[1..], b, f);
    } else {
      assert a + b == b;
    }
  }

  /** The recursive traversal delivers exactly the accepted files among all entries of
      the tree, in the same order: directories are entered, other entries skipped. */
  lemma {:induction false} MatchingSelectsFromNodes(es: seq<Entry>, f: Filter)
    ensures Matching(es, f) == SelectAccepted(Nodes(es), f)
    decreases es
  {
    if |es| > 0 {
      MatchingInSelectsFromNodes(es[0], f);
      MatchingSelectsFromNodes(es[1..], f);
      SelectAcceptedAppend(NodesOf(es[0]), Nodes(es[1..]), f);
    }
  }

  lemma {:induction false} MatchingInSelectsFromNodes(e: Entry, f: Filter)
    ensures MatchingIn(e, f) == SelectAccepted(NodesOf(e), f)
    decreases e
  {
    match e
    case Dir(_, _, cs) =>
      MatchingSelectsFromNodes(cs, f);
      SelectAcceptedAppend([e], Nodes(cs), f);
    case File(_, _, _) =>
      assert [e][1..] == [];
    case Other(_, _) =>
      assert [e][1..] == [];
  }

  lemma {:induction false} SelectAcceptedAgree(s: seq<Entry>, f: Filter, g: Filter)
    requires forall i :: 0 <= i < |s| && s[i].File? ==> (Accepts(f, s[i].name) <==> Accepts(g, s[i].name))
    ensures SelectAccepted(s, f) == SelectAccepted(s, g)
  {
    if |s| > 0 {
      SelectAcceptedAgree(s[1..], f, g);
    }
  }

  /** Two filters that agree on the name of every file in the tree deliver the same files. */
  lemma MatchingAgree(es: seq<Entry>, f: Filter, g: Filter)
    requires forall e :: e in Nodes(es) && e.File? ==> (Accepts(f, e.name) <==> Accepts(g, e.name))
    ensures Matching(es, f) == Matching(es, g)
  {
    MatchingSelectsFromNodes(es, f);
    MatchingSelectsFromNodes(es, g);
    SelectAcceptedAgree(Nodes(es), f, g);
  }

  /** Every delivered file is an accepted file of the tree, and every accepted file of the
      tree is delivered. */
  lemma MatchingMembership(es: seq<Entry>, f: Filter, e: Entry)
    ensures e in Matching(es, f) <==> e in Nodes(es) && IsAcceptedFile(e, f)
  {
    MatchingSelectsFromNodes(es, f);
    SelectAcceptedMembership(Nodes(es), f, e);
  }

  lemma {:induction false} SelectAcceptedMembership(s: seq<Entry>, f: Filter, e: Entry)
    ensures e in SelectAccepted(s, f) <==> e in s && IsAcceptedFile(e, f)
  {
    if |s| > 0 {
      SelectAcceptedMembership(s[1..], f, e);
      assert s == [s[0]] + s[1..];
    }
  }
}
