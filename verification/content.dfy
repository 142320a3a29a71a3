/**
 * The content loader of the site: Markdown files with front matter kept in
 * one directory per category, resolved one file at a time, enumerated for
 * static generation, and listed newest first for the blog index.
 *
 * The file system is a map from category to the directory listing; each
 * entry carries the front matter already split from the body (the
 * front-matter parser is outside the model), and the MDX serializer is a
 * function the caller passes in.
 */
module Content {
  import LexOrder

  datatype Category = Posts | Pages

  /** What the MDX serializer produces; its inside is not modelled. */
  datatype MdxSource = MdxSource(compiledSource: string)

  /** A value in a record: a string, a serialized body, or any other front-matter value. */
  datatype Value = Str(s: string) | Source(mdx: MdxSource) | NonString(tag: nat)

  type FrontMatter = map<string, Value>

  /** A JavaScript object returned to the pages, as its own keys and values. */
  type Record = map<string, Value>

  /** One directory entry: its file name, its front matter and its body text. */
  datatype Entry = Entry(name: string, data: FrontMatter, content: string)

  /** A category missing from the map is a directory that does not exist. */
  type FileSystem = map<Category, seq<Entry>>

  datatype Result<T, E> = Ok(value: T) | Err(error: E)

  datatype Error =
    | NotFound(category: Category, fileName: string)
    | SerializeFailed(message: string)

  /** The file-system and serializer calls a resolution makes, in order. */
  datatype Effect =
    | CheckExists(category: Category, fileName: string)
    | ReadFile(category: Category, fileName: string)
    | Serialize(category: Category, fileName: string)

  datatype Resolution = Resolution(result: Result<Record, Error>, effects: seq<Effect>)

  type Serializer = (string, FrontMatter) -> Result<MdxSource, string>

  // ---------------------------------------------------------------------
  // Slugs

  const Extension: string := ".md"

  /** The name ends with the regular expression `\.md$`. */
  predicate EndsWithMd(name: string)
    ensures EndsWithMd(name) <==>
      |name| >= 3 && name[|name| - 3] == '.' && name[|name| - 2] == 'm' && name[|name| - 1] == 'd'
  {
    |name| >= 3 && name[|name| - 3..] == Extension
  }

  /** `fileName.replace(/\.md$/, '')`: one trailing `.md` is removed, nothing else. */
  function StripMd(name: string): (slug: string)
    ensures EndsWithMd(name) ==> slug + Extension == name
    ensures !EndsWithMd(name) ==> slug == name
  {
    if EndsWithMd(name) then name[..|name| - 3] else name
  }

  /** Stripping undoes appending the extension, and removes only one copy of it. */
  lemma StripMdAppended(slug: string)
    ensures EndsWithMd(slug + Extension)
    ensures StripMd(slug + Extension) == slug
  {
  }

  /** A file name with a doubled extension keeps one of them. */
  lemma StripMdOnce()
    ensures StripMd("a.md.md") == "a.md"
    ensures StripMd("a.md") == "a"
    ensures StripMd("a.txt") == "a.txt"
  {
  }

  // ---------------------------------------------------------------------
  // Resolving one file

  /** `fs.existsSync` of `<category>/<fileName>`: the directory exists and lists that name. */
  predicate FileExists(fs: FileSystem, category: Category, fileName: string)
    ensures category !in fs ==> !FileExists(fs, category, fileName)
    ensures FileExists(fs, category, fileName) <==> category in fs && fileName in (set e | e in fs[category] :: e.name)
  {
    category in fs && exists i :: 0 <= i < |fs[category]| && fs[category][i].name == fileName
  }

  /** The index of the first entry with the given name in a listing. */
  function IndexOf(entries: seq<Entry>, fileName: string): (i: nat)
    requires exists k :: 0 <= k < |entries| && entries[k].name == fileName
    ensures i < |entries| && entries[i].name == fileName
    ensures forall k :: 0 <= k < i ==> entries[k].name != fileName
  {
    if entries[0].name == fileName then 0
    else
      assert exists k :: 0 <= k < |entries[1..]| && entries[1..][k].name == fileName by {
        var k :| 0 <= k < |entries| && entries[k].name == fileName;
        assert entries[1..][k - 1].name == fileName;
      }
      1 + IndexOf(entries[1..], fileName)
  }

  /** The entry the path `<category>/<fileName>` names. */
  function Lookup(fs: FileSystem, category: Category, fileName: string): (e: Entry)
    requires FileExists(fs, category, fileName)
    ensures e.name == fileName && e in fs[category]
  {
    fs[category][IndexOf(fs[category], fileName)]
  }

  /**
   * The object `{ slug, source, ...data }`: the derived slug and source come
   * first, so a front-matter key of the same name replaces them.
   */
  function Assemble(slug: string, source: MdxSource, data: FrontMatter): (r: Record)
    ensures r.Keys == {"slug", "source"} + data.Keys
    ensures forall k :: k in data ==> r[k] == data[k]
    ensures "slug" !in data ==> r["slug"] == Str(slug)
    ensures "source" !in data ==> r["source"] == Source(source)
  {
    map["slug" := Str(slug), "source" := Source(source)] + data
  }

  /**
   * `getMarkdownContent(type, fileName)`: check that the file exists, and
   * fail with NotFound before anything is read if it does not; otherwise
   * read it, serialize its body with the front matter as scope, and
   * assemble the record.
   */
  function GetMarkdownContent(fs: FileSystem, category: Category, fileName: string, serialize: Serializer): (res: Resolution)
    ensures !FileExists(fs, category, fileName) ==>
      res.result == Err(NotFound(category, fileName)) && res.effects == [CheckExists(category, fileName)]
    ensures FileExists(fs, category, fileName) ==>
      res.effects == [CheckExists(category, fileName), ReadFile(category, fileName), Serialize(category, fileName)]
    ensures res.result.Ok? <==>
      FileExists(fs, category, fileName) && serialize(Lookup(fs, category, fileName).content, Lookup(fs, category, fileName).data).Ok?
    ensures res.result.Ok? ==>
      var e := Lookup(fs, category, fileName);
      res.result.value == Assemble(StripMd(fileName), serialize(e.content, e.data).value, e.data)
    ensures FileExists(fs, category, fileName) && res.result.Err? ==>
      var e := Lookup(fs, category, fileName);
      res.result.error == SerializeFailed(serialize(e.content, e.data).error)
  {
    var checked := [CheckExists(category, fileName)];
    if !FileExists(fs, category, fileName) then
      Resolution(Err(NotFound(category, fileName)), checked)
    else
      var e := Lookup(fs, category, fileName);
      var effects := checked + [ReadFile(category, fileName), Serialize(category, fileName)];
      match serialize(e.content, e.data)
      case Err(message) => Resolution(Err(SerializeFailed(message)), effects)
      case Ok(source) => Resolution(Ok(Assemble(StripMd(fileName), source, e.data)), effects)
  }

  // ---------------------------------------------------------------------
  // Enumerating slugs

  /** One element `{ slug }` of the static parameters. */
  datatype SlugParam = SlugParam(slug: string)

  /** `fileNames.map(fileName => ({ slug: stripped fileName }))`. */
  function SlugsOf(entries: seq<Entry>): (r: seq<SlugParam>)
    ensures |r| == |entries|
    ensures forall i :: 0 <= i < |entries| ==> r[i].slug == StripMd(entries[i].name)
  {
    if entries == [] then [] else [SlugParam(StripMd(entries[0].name))] + SlugsOf(entries[1..])
  }

  /** `getAllSlugs(type)`: one slug per directory entry, none if the directory is missing. */
  function GetAllSlugs(fs: FileSystem, category: Category): (r: seq<SlugParam>)
    ensures category !in fs ==> r == []
    ensures category in fs ==> |r| == |fs[category]|
    ensures category in fs ==> forall i :: 0 <= i < |r| ==> r[i].slug == StripMd(fs[category][i].name)
  {
    if category !in fs then [] else SlugsOf(fs[category])
  }

  /**
   * The slug pages request `<slug>.md` for every enumerated slug. A slug
   * that came from a `.md` file resolves to that file (when serialization
   * succeeds) with that slug, unless its front matter overrides `slug`; a
   * slug that came from any other name fails with NotFound unless a file
   * named `<name>.md` happens to exist as well.
   */
  lemma EnumeratedSlugResolves(fs: FileSystem, category: Category, i: nat, serialize: Serializer)
    requires category in fs && i < |fs[category]|
    ensures var slug := GetAllSlugs(fs, category)[i].slug;
      var entry := fs[category][i];
      var res := GetMarkdownContent(fs, category, slug + Extension, serialize);
      && (EndsWithMd(entry.name) ==> FileExists(fs, category, slug + Extension))
      && (EndsWithMd(entry.name) && res.result.Ok? && "slug" !in Lookup(fs, category, entry.name).data ==>
            res.result.value["slug"] == Str(slug))
      && (!EndsWithMd(entry.name) && !FileExists(fs, category, entry.name + Extension) ==>
            res.result == Err(NotFound(category, entry.name + Extension)))
  {
  }

  // ---------------------------------------------------------------------
  // Listing posts

  /** `{ slug, ...data }` for one post: front matter only, no body. */
  function MetadataOf(e: Entry): (r: Record)
    ensures r.Keys == {"slug"} + e.data.Keys
    ensures forall k :: k in e.data ==> r[k] == e.data[k]
    ensures "slug" !in e.data ==> r["slug"] == Str(StripMd(e.name))
  {
    map["slug" := Str(StripMd(e.name))] + e.data
  }

  /** The unsorted `allPosts`: one record per directory entry, in listing order. */
  function AllMetadata(entries: seq<Entry>): (r: seq<Record>)
    ensures |r| == |entries|
    ensures forall i :: 0 <= i < |entries| ==> r[i] == MetadataOf(entries[i])
  {
    if entries == [] then [] else [MetadataOf(entries[0])] + AllMetadata(entries[1..])
  }

  /** The record has a string `date`. */
  predicate Dated(r: Record)
  {
    "date" in r && r["date"].Str?
  }

  function DateOf(r: Record): string
    requires Dated(r)
  {
    r["date"].s
  }

  /**
   * `a.date < b.date` as JavaScript evaluates it when both are strings or
   * missing; a missing date compares false against everything.
   */
  predicate DateBefore(a: Record, b: Record)
    ensures !Dated(a) || !Dated(b) ==> !DateBefore(a, b)
    ensures Dated(a) && Dated(b) && DateOf(a) == DateOf(b) ==> !DateBefore(a, b)
  {
    LexOrder.LessIrreflexiveAll();
    Dated(a) && Dated(b) && LexOrder.Less(DateOf(a), DateOf(b))
  }

  predicate AllDated(s: seq<Record>)
  {
    forall r :: r in s ==> Dated(r)
  }

  /** No record has a date strictly before that of a record after it. */
  predicate DescendingByDate(s: seq<Record>)
  {
    forall p, q :: 0 <= p < q < |s| ==> !DateBefore(s[p], s[q])
  }

  /** Every record's date comes strictly after the dates of the records that follow it. */
  predicate StrictlyDescending(s: seq<Record>)
    requires AllDated(s)
  {
    forall p, q :: 0 <= p < q < |s| ==> LexOrder.Less(DateOf(s[q]), DateOf(s[p]))
  }

  predicate DistinctDates(s: seq<Record>)
    requires AllDated(s)
  {
    forall p, q :: 0 <= p < q < |s| ==> DateOf(s[p]) != DateOf(s[q])
  }

  /** With pairwise distinct dates, the descending order is strict. */
  lemma StrictWhenDistinct(s: seq<Record>)
    requires AllDated(s) && DistinctDates(s) && DescendingByDate(s)
    ensures StrictlyDescending(s)
  {
    forall p, q | 0 <= p < q < |s|
      ensures LexOrder.Less(DateOf(s[q]), DateOf(s[p]))
    {
      assert s[p] in s && s[q] in s;
      LexOrder.LessTotal(DateOf(s[p]), DateOf(s[q]));
    }
  }

  /** A record that occurs at two positions occurs at least twice in the multiset. */
  lemma TwiceInMultiset(s: seq<Record>, p: nat, q: nat)
    requires p < q < |s| && s[p] == s[q]
    ensures multiset(s)[s[p]] >= 2
  {
    assert s == s[..q] + [s[q]] + s[q + 1..];
    assert s[p] in s[..q];
  }

  /** A record that occurs at least twice in the multiset occurs at two positions. */
  lemma {:induction false} TwoPositions(t: seq<Record>, x: Record)
    requires multiset(t)[x] >= 2
    ensures exists i, j :: 0 <= i < j < |t| && t[i] == x && t[j] == x
  {
    assert t == [t[0]] + t[1..];
    if t[0] == x {
      assert x in multiset(t[1..]);
      var k :| 0 <= k < |t[1..]| && t[1..][k] == x;
      assert t[0] == x && t[k + 1] == x;
    } else {
      TwoPositions(t[1..], x);
      var i, j :| 0 <= i < j < |t[1..]| && t[1..][i] == x && t[1..][j] == x;
      assert t[i + 1] == x && t[j + 1] == x;
    }
  }

  /** Distinct dates in `t` stay distinct in any rearrangement `s` of it. */
  lemma DistinctDatesTransfer(s: seq<Record>, t: seq<Record>)
    requires multiset(s) == multiset(t) && AllDated(s) && AllDated(t)
    requires DistinctDates(t)
    ensures DistinctDates(s)
  {
    forall p, q | 0 <= p < q < |s|
      ensures DateOf(s[p]) != DateOf(s[q])
    {
      assert s[p] in multiset(t) && s[q] in multiset(t);
      if s[p] == s[q] {
        TwiceInMultiset(s, p, q);
        TwoPositions(t, s[p]);
      } else {
        var i :| 0 <= i < |t| && t[i] == s[p];
        var j :| 0 <= j < |t| && t[j] == s[q];
        if i < j {
          assert DateOf(t[i]) != DateOf(t[j]);
        } else {
          assert DateOf(t[j]) != DateOf(t[i]);
        }
      }
    }
  }

  /** Whether the dates are pairwise distinct does not depend on the order of the records. */
  lemma DistinctDatesPermutation(s: seq<Record>, t: seq<Record>)
    requires multiset(s) == multiset(t) && AllDated(s)
    ensures AllDated(t)
    ensures DistinctDates(s) == DistinctDates(t)
  {
    AllDatedPermutation(s, t);
    if DistinctDates(t) {
      DistinctDatesTransfer(s, t);
    }
    if DistinctDates(s) {
      DistinctDatesTransfer(t, s);
    }
  }

  /** Exchanges `a[i - 1]` and `a[i]`. */
  method SwapDown(a: array<Record>, i: nat)
    requires 0 < i < a.Length
    modifies a
    ensures a[..] == old(a[..])[i - 1 := old(a[i])][i := old(a[i - 1])]
    ensures multiset(a[..]) == multiset(old(a[..]))
  {
    a[i - 1], a[i] := a[i], a[i - 1];
  }

  /** The first `n` records are in descending date order. */
  predicate SortedPrefix(s: seq<Record>, n: nat)
    requires n <= |s|
  {
    forall p, q :: 0 <= p < q < n ==> !DateBefore(s[p], s[q])
  }

  /** Being dated is a property of the records, not of their order. */
  lemma AllDatedPermutation(s: seq<Record>, t: seq<Record>)
    requires multiset(s) == multiset(t)
    ensures AllDated(s) == AllDated(t)
  {
    forall r | r in s ensures r in t {
      assert r in multiset(s);
    }
    forall r | r in t ensures r in s {
      assert r in multiset(t);
    }
  }

  /**
   * The insertion of `s[j]` is finished: the records after it are all dated
   * before it, the one before it (if any) is not, and every other pair up to
   * `i` is in order. Then the prefix of length `i + 1` is sorted.
   */
  lemma InsertionDone(s: seq<Record>, j: nat, i: nat)
    requires j <= i < |s| && AllDated(s)
    requires forall p, q :: 0 <= p < q <= i && p != j && q != j ==> !DateBefore(s[p], s[q])
    requires forall q :: j < q <= i ==> DateBefore(s[q], s[j])
    requires j > 0 ==> !DateBefore(s[j - 1], s[j])
    ensures SortedPrefix(s, i + 1)
  {
    forall p | 0 <= p < j
      ensures !DateBefore(s[p], s[j])
    {
      if p < j - 1 {
        assert s[p] in s && s[j - 1] in s && s[j] in s;
        LexOrder.NotLessTransitive(DateOf(s[p]), DateOf(s[j - 1]), DateOf(s[j]));
      }
    }
    forall q | j < q <= i
      ensures !DateBefore(s[j], s[q])
    {
      LexOrder.LessAsymmetric(DateOf(s[q]), DateOf(s[j]));
    }
  }

  /** One pass of the insertion sort: `a[i]` moves left into the sorted prefix. */
  method InsertStep(a: array<Record>, i: nat)
    requires i < a.Length
    requires AllDated(a[..]) ==> SortedPrefix(a[..], i)
    modifies a
    ensures multiset(a[..]) == multiset(old(a[..]))
    ensures AllDated(a[..]) ==> SortedPrefix(a[..], i + 1)
  {
    ghost var dated := AllDated(a[..]);
    var j := i;
    while j > 0 && DateBefore(a[j - 1], a[j])
      invariant 0 <= j <= i
      invariant multiset(a[..]) == multiset(old(a[..]))
      invariant dated ==> forall p, q :: 0 <= p < q <= i && p != j && q != j ==> !DateBefore(a[p], a[q])
      invariant forall q :: j < q <= i ==> DateBefore(a[q], a[j])
    {
      SwapDown(a, j);
      j := j - 1;
    }
    AllDatedPermutation(a[..], old(a[..]));
    if dated {
      InsertionDone(a[..], j, i);
    }
  }

  /**
   * `allPosts.sort((a, b) => a.date < b.date ? 1 : -1)`, by insertion: a
   * record moves left past every record whose date is before its own. The
   * result is a permutation, and it is descending whenever every record
   * has a string date.
   */
  method SortByDateDesc(a: array<Record>)
    modifies a
    ensures multiset(a[..]) == multiset(old(a[..]))
    ensures AllDated(old(a[..])) ==> DescendingByDate(a[..])
  {
    var i := 0;
    while i < a.Length
      invariant 0 <= i <= a.Length
      invariant multiset(a[..]) == multiset(old(a[..]))
      invariant AllDated(a[..]) ==> SortedPrefix(a[..], i)
    {
      InsertStep(a, i);
      i := i + 1;
    }
    AllDatedPermutation(a[..], old(a[..]));
  }

  /**
   * `getAllPostsMetadata()`: no posts when the posts directory is missing;
   * otherwise every post's metadata record exactly once, newest first
   * whenever every post has a string date, and strictly so when those
   * dates are pairwise distinct.
   */
  method GetAllPostsMetadata(fs: FileSystem) returns (posts: seq<Record>)
    ensures Posts !in fs ==> posts == []
    ensures Posts in fs ==> |posts| == |fs[Posts]|
    ensures Posts in fs ==> multiset(posts) == multiset(AllMetadata(fs[Posts]))
    ensures Posts in fs && AllDated(AllMetadata(fs[Posts])) ==> DescendingByDate(posts)
    ensures Posts in fs && AllDated(AllMetadata(fs[Posts])) && DistinctDates(AllMetadata(fs[Posts])) ==>
      AllDated(posts) && StrictlyDescending(posts)
  {
    if Posts !in fs {
      return [];
    }
    var all := AllMetadata(fs[Posts]);
    var allPosts := new Record[|all|](k requires 0 <= k < |all| => all[k]);
    assert allPosts[..] == all;
    SortByDateDesc(allPosts);
    posts := allPosts[..];
    assert |multiset(posts)| == |multiset(all)|;
    if AllDated(all) && DistinctDates(all) {
      DistinctDatesPermutation(all, posts);
      StrictWhenDistinct(posts);
    }
  }
}
