/**
 * The storage node's bucket store. The storage root directory is abstracted
 * as the set of names of its direct children; creating a bucket adds a name
 * unless it already exists, and `GET /` lists one entry per child.
 */
module FileServer {
  import opened Strings

  /** The storage root's direct children (buckets), by name. */
  datatype Store = Store(children: set<string>)

  /** The JSON object `create_bucket` returns. */
  datatype Response = Response(status: string, message: string)

  /** File-system metadata of a child, read through `lstat`/`stat`. */
  datatype Stat = Stat(size: nat, createdAt: string)

  /** One element of the `GET /` listing. */
  datatype Entry = Entry(name: string, size: nat, createdAt: string)

  const MadePrefix := "Bucket made: "
  const ExistsPrefix := "Bucket already exists at "

  /** FastAPI's `{bucket_name}` path parameter: one non-empty segment without `/`. */
  predicate IsSegment(name: string) {
    |name| > 0 && '/' !in name
  }

  /**
   * `mkdir` raises FileExistsError for an existing child, and also for `.`
   * and `..`, which name the root itself and its parent.
   */
  predicate Exists(store: Store, name: string) {
    name in store.children || name == "." || name == ".."
  }

  /** What the node answers to `POST /{bucket_name}`. */
  datatype Reply =
    | Json(response: Response)  // status 200 with the handler's JSON object
    | InternalError             // an exception the handler does not catch: status 500

  /** Longest file name component the file system accepts, in bytes (Linux `NAME_MAX`). */
  const NameMax := 255

  /** Bytes `c` takes in UTF-8, the encoding file names are passed to the kernel in. */
  function CharUtf8Length(c: char): (n: nat)
    ensures 1 <= n <= 4
    ensures n == 1 <==> c as int < 0x80
  {
    if c as int < 0x80 then 1
    else if c as int < 0x800 then 2
    else if c as int < 0x1_0000 then 3
    else 4
  }

  /** Bytes `s` takes in UTF-8: at least one and at most four per character. */
  function Utf8Length(s: string): (n: nat)
    ensures |s| <= n <= 4 * |s|
    decreases |s|
  {
    if |s| == 0 then 0 else CharUtf8Length(s[0]) + Utf8Length(s[1..])
  }

  /**
   * `mkdir` fails with something other than FileExistsError: an embedded NUL
   * makes Python raise ValueError before any system call, and a name longer
   * than `NameMax` bytes makes the kernel answer ENAMETOOLONG.
   */
  predicate MkdirRejects(name: string) {
    '\0' in name || Utf8Length(name) > NameMax
  }

  /**
   * `create_bucket`: make the directory, or report that it already exists.
   * Only FileExistsError is caught; a name `mkdir` rejects otherwise makes
   * the request fail with status 500 and creates nothing.
   */
  function CreateBucket(store: Store, rootAbs: string, name: string): (out: (Store, Reply))
    requires IsSegment(name)
    ensures MkdirRejects(name) ==> out == (store, InternalError)
    ensures !MkdirRejects(name) && !Exists(store, name) ==>
      && out.0.children == store.children + {name}
      && out.1 == Json(Response("ok", MadePrefix + rootAbs + "/" + name))
    ensures !MkdirRejects(name) && Exists(store, name) ==>
      && out.0 == store
      && out.1 == Json(Response("error", ExistsPrefix + rootAbs + "/" + name))
    ensures forall other :: other != name ==> (other in out.0.children <==> other in store.children)
  {
    if MkdirRejects(name) then
      (store, InternalError)
    else if Exists(store, name) then
      (store, Json(Response("error", ExistsPrefix + rootAbs + "/" + name)))
    else
      (Store(store.children + {name}), Json(Response("ok", MadePrefix + rootAbs + "/" + name)))
  }

  /** Any name of more than `NameMax` characters is refused with status 500, whatever the store holds. */
  lemma LongNameRefused(store: Store, rootAbs: string, name: string)
    requires IsSegment(name) && |name| > NameMax
    ensures CreateBucket(store, rootAbs, name) == (store, InternalError)
  {
  }

  /** A second create of the same name leaves the store as the first left it and does not report success. */
  lemma CreateTwice(store: Store, rootAbs: string, name: string)
    requires IsSegment(name)
    ensures var (s1, _) := CreateBucket(store, rootAbs, name);
      var (s2, r2) := CreateBucket(s1, rootAbs, name);
      && s2 == s1
      && (MkdirRejects(name) ==> r2 == InternalError)
      && (!MkdirRejects(name) ==> r2 == Json(Response("error", ExistsPrefix + rootAbs + "/" + name)))
  {
  }

  /** Number of listing entries with the given name. */
  function Occurrences(listing: seq<Entry>, name: string): (n: nat)
    decreases |listing|
  {
    if |listing| == 0 then 0
    else Occurrences(listing[..|listing| - 1], name) + (if listing[|listing| - 1].name == name then 1 else 0)
  }

  /** A listing of `children`: every child exactly once, nothing else, each with its metadata. */
  predicate ListsExactly(listing: seq<Entry>, children: set<string>, stat: string -> Stat) {
    && (forall i :: 0 <= i < |listing| ==>
          listing[i].name in children
          && listing[i].size == stat(listing[i].name).size
          && listing[i].createdAt == stat(listing[i].name).createdAt)
    && (forall n :: n in children ==> Occurrences(listing, n) == 1)
  }

  /**
   * `read_root`: one entry per direct child of the root, named by the child,
   * in the (unspecified) order the directory yields them.
   */
  method ReadRoot(store: Store, stat: string -> Stat) returns (listing: seq<Entry>)
    ensures |listing| == |store.children|
    ensures ListsExactly(listing, store.children, stat)
  {
    var pending := store.children;
    listing := [];
    while pending != {}
      invariant pending <= store.children
      invariant |listing| + |pending| == |store.children|
      invariant forall i :: 0 <= i < |listing| ==>
        && listing[i].name in store.children - pending
        && listing[i].size == stat(listing[i].name).size
        && listing[i].createdAt == stat(listing[i].name).createdAt
      invariant forall n :: n in store.children ==>
        Occurrences(listing, n) == (if n in pending then 0 else 1)
      decreases pending
    {
      var b :| b in pending;
      var e := Entry(b, stat(b).size, stat(b).createdAt);
      assert (listing + [e])[..|listing|] == listing;
      listing := listing + [e];
      pending := pending - {b};
    }
  }

  /** After a successful create, any listing of the store shows the new bucket exactly once. */
  lemma CreatedBucketListedOnce(store: Store, rootAbs: string, name: string,
                                listing: seq<Entry>, stat: string -> Stat)
    requires IsSegment(name) && !MkdirRejects(name) && !Exists(store, name)
    requires ListsExactly(listing, CreateBucket(store, rootAbs, name).0.children, stat)
    ensures Occurrences(listing, name) == 1
    ensures forall i :: 0 <= i < |listing| ==> listing[i].name in store.children + {name}
  {
  }

  // ---------------------------------------------------------------------
  // is_accessible_path
  // ---------------------------------------------------------------------

  /** A path as the sequence of its components (pathlib's `parts`). */
  type Path = seq<string>

  /** `ROOT = Path("../root")`. */
  const Root: Path := ["..", "root"]

  /** Python `a < b` on strings: lexicographic by code point. */
  predicate StrLess(a: string, b: string)
    decreases |a|
  {
    if |b| == 0 then false
    else if |a| == 0 then true
    else if a[0] != b[0] then a[0] < b[0]
    else StrLess(a[1..], b[1..])
  }

  /** `PurePath.__lt__`: lexicographic comparison of the component lists. */
  predicate PathLess(a: Path, b: Path)
    decreases |a|
  {
    if |b| == 0 then false
    else if |a| == 0 then true
    else if a[0] != b[0] then StrLess(a[0], b[0])
    else PathLess(a[1..], b[1..])
  }

  /** `is_accessible_path`, as written: `ROOT < path`. */
  predicate IsAccessiblePath(path: Path) {
    PathLess(Root, path)
  }

  lemma {:induction false} PathLessIrreflexive(a: Path)
    ensures !PathLess(a, a)
    decreases |a|
  {
    if |a| > 0 {
      PathLessIrreflexive(a[1..]);
    }
  }

  /** `a` is a proper prefix of `b`. */
  predicate ProperPrefix(a: Path, b: Path) {
    |a| < |b| && b[..|a|] == a
  }

  /** `a` and `b` first differ at component `k`, where `a`'s sorts first. */
  predicate FirstDifferenceLess(a: Path, b: Path, k: int) {
    0 <= k < |a| && k < |b| && a[..k] == b[..k] && a[k] != b[k] && StrLess(a[k], b[k])
  }

  /** Dropping a shared first component keeps a proper prefix a proper prefix. */
  lemma ProperPrefixShift(a: Path, b: Path)
    requires |a| > 0 && |b| > 0 && a[0] == b[0]
    ensures ProperPrefix(a, b) <==> ProperPrefix(a[1..], b[1..])
  {
    if ProperPrefix(a, b) {
      assert b[1..][..|a| - 1] == b[..|a|][1..];
    }
    if ProperPrefix(a[1..], b[1..]) {
      assert b[..|a|] == [b[0]] + b[1..][..|a| - 1];
      assert a == [a[0]] + a[1..];
    }
  }

  /** Dropping a shared first component moves the first difference one place left. */
  lemma FirstDifferenceShift(a: Path, b: Path, k: int)
    requires |a| > 0 && |b| > 0 && a[0] == b[0] && k >= 1
    ensures FirstDifferenceLess(a, b, k) <==> FirstDifferenceLess(a[1..], b[1..], k - 1)
  {
    if 0 <= k - 1 < |a| - 1 && k - 1 < |b| - 1 {
      assert a[..k] == [a[0]] + a[1..][..k - 1];
      assert b[..k] == [b[0]] + b[1..][..k - 1];
    }
  }

  /**
   * The comparison in full: `a < b` iff `a` is a proper prefix of `b`, or at
   * the first component where they differ, `a`'s sorts first.
   */
  lemma {:induction false} PathLessMeaning(a: Path, b: Path)
    ensures PathLess(a, b) <==> ProperPrefix(a, b) || exists k :: FirstDifferenceLess(a, b, k)
    decreases |a|
  {
    if |a| > 0 && |b| > 0 && a[0] == b[0] {
      PathLessMeaning(a[1..], b[1..]);
      ProperPrefixShift(a, b);
      assert !FirstDifferenceLess(a, b, 0);
      if k :| FirstDifferenceLess(a, b, k) {
        FirstDifferenceShift(a, b, k);
      }
      if k :| FirstDifferenceLess(a[1..], b[1..], k) {
        FirstDifferenceShift(a, b, k + 1);
      }
    } else if |a| > 0 && |b| > 0 {
      assert a[..0] == b[..0];
      assert FirstDifferenceLess(a, b, 0) <==> StrLess(a[0], b[0]);
    }
  }

  /** The root itself is not accessible. */
  lemma RootNotAccessible()
    ensures !IsAccessiblePath(Root)
  {
    PathLessIrreflexive(Root);
  }

  /** Every path whose components strictly extend the root's is accessible. */
  lemma ExtensionAccessible(rest: Path)
    requires |rest| > 0
    ensures IsAccessiblePath(Root + rest)
  {
    PathLessMeaning(Root, Root + rest);
    assert ProperPrefix(Root, Root + rest);
  }

  // ---------------------------------------------------------------------
  // Intended containment check
  // ---------------------------------------------------------------------

  /** One step of lexical resolution: `..` cancels the previous name, `.` is dropped. */
  function Resolve1(stack: Path, c: string): (r: Path)
    ensures |r| <= |stack| + 1
  {
    if c == "." then stack
    else if c == ".." && |stack| > 0 && stack[|stack| - 1] != ".." then stack[..|stack| - 1]
    else stack + [c]
  }

  /** Lexical resolution of a relative path (symbolic links are not followed). */
  function Resolve(p: Path): (r: Path)
    ensures |r| <= |p|
    decreases |p|
  {
    if |p| == 0 then [] else Resolve1(Resolve(p[..|p| - 1]), p[|p| - 1])
  }

  /** A component that names a child: neither `.` nor `..`. */
  predicate IsName(c: string) {
    c != "." && c != ".."
  }

  /** `path` lies strictly inside `ROOT` once `.` and `..` are resolved. */
  predicate IsInsideRoot(path: Path) {
    var r := Resolve(path);
    |r| > |Root| && r[..|Root|] == Root
  }

  /** Appending plain names to a resolved path leaves it unchanged. */
  lemma {:induction false} ResolveNames(p: Path, rest: Path)
    requires forall i :: 0 <= i < |rest| ==> IsName(rest[i])
    ensures Resolve(p + rest) == Resolve(p) + rest
    decreases |rest|
  {
    if |rest| > 0 {
      var init := rest[..|rest| - 1];
      ResolveNames(p, init);
      assert (p + rest)[..|p + rest| - 1] == p + init;
      assert Resolve(p) + init + [rest[|rest| - 1]] == Resolve(p) + rest;
    } else {
      assert p + rest == p;
    }
  }

  /** Resolution reads the components left to right. */
  lemma ResolveAppendOne(p: Path, c: string)
    ensures Resolve(p + [c]) == Resolve1(Resolve(p), c)
  {
    assert (p + [c])[..|p|] == p;
  }

  lemma ResolveRoot()
    ensures Resolve(Root) == Root
  {
    assert Root[..1] == [".."];
    assert Root[..1][..0] == [];
  }

  /** Below the root, a path of plain names is inside it iff it adds at least one name. */
  lemma InsideRootForNames(rest: Path)
    requires forall i :: 0 <= i < |rest| ==> IsName(rest[i])
    ensures IsInsideRoot(Root + rest) <==> |rest| > 0
  {
    ResolveRoot();
    ResolveNames(Root, rest);
    assert (Root + rest)[..|Root|] == Root;
  }

  /** Every path inside the root resolves to one that `is_accessible_path` also accepts. */
  lemma InsideRootIsAccessible(path: Path)
    requires IsInsideRoot(path)
    ensures IsAccessiblePath(Resolve(path))
  {
    var r := Resolve(path);
    assert r == Root + r[|Root|..];
    ExtensionAccessible(r[|Root|..]);
  }

  /** A sibling that sorts after the root is accepted by the comparison, yet is not inside the root. */
  lemma SiblingAccepted(path: Path)
    requires path == ["..", "rooz"]
    ensures IsAccessiblePath(path)
    ensures !IsInsideRoot(path)
  {
    assert StrLess("root", "rooz");
    assert path[..1] == [".."] && path[..1][..0] == [];
    assert Resolve(path[..1]) == [".."];
    assert Resolve(path) == path;
    assert Resolve(path)[..|Root|] != Root by {
      assert Resolve(path)[1] != Root[1];
    }
  }

  /** A path that climbs back out with `..` strictly extends the root, so it is accepted too. */
  lemma ClimbOutAccepted(path: Path)
    requires path == ["..", "root", "..", "etc"]
    ensures IsAccessiblePath(path)
    ensures !IsInsideRoot(path)
  {
    assert path == Root + ["..", "etc"];
    assert IsAccessiblePath(path) by {
      ExtensionAccessible(["..", "etc"]);
    }
    assert Resolve(path) == ["..", "etc"] by {
      ClimbOutResolves();
    }
  }

  /** `../root/../etc` resolves to `../etc`. */
  lemma ClimbOutResolves()
    ensures Resolve(Root + ["..", "etc"]) == ["..", "etc"]
  {
    ResolveRoot();
    ResolveAppendOne(Root, "..");
    ResolveAppendOne(Root + [".."], "etc");
    assert Root + ["..", "etc"] == Root + [".."] + ["etc"];
  }
}
