/** The attachment handlers of `AttachmentHandler.download_attachment`,
    `download_all_attachments` and the older `JiraDownloader` copies: the
    choice of a file name that does not clash with the files already in
    the output directory, the record returned for a saved file, and the
    loop that downloads every attachment of an issue.

    The directory is the set of names it holds. The network is a parameter:
    for every attachment, whether its bytes arrived and, if not, whether a
    partly written file was left behind.
 */
module Attachments {
  import opened Wrappers
  import opened Text
  import opened Json

  /** The three copies of the handler: the packaged one (`Src`) records
      the attachment id, the older package (`Pkg`) does not, and the script
      (`Script`) turns a failed download into `None` instead of raising. */
  datatype Variant = Src | Pkg | Script

  /** What the server did with one download request. */
  datatype Fetch = Fetched | Failed(leftFile: bool)

  /** The record of a saved attachment. `id` is `None` in the variants
      whose record has no "attachment_id" key. */
  datatype Saved = Saved(id: Option<JValue>, filename: string, original: string, mimeType: JValue)

  /** Index of the last occurrence of `c`. */
  function LastIndex(s: string, c: char): (r: Option<nat>)
    ensures r.Some? ==> r.value < |s| && s[r.value] == c && c !in s[r.value + 1..]
    ensures r.None? <==> c !in s
  {
    if s == [] then None
    else if s[|s| - 1] == c then Some(|s| - 1)
    else LastIndex(s[..|s| - 1], c)
  }

  /** `PurePath(name).suffix`: from the last dot, unless that dot starts or
      ends the name. */
  function Suffix(name: string): string {
    match LastIndex(name, '.')
    case Some(i) => if 0 < i < |name| - 1 then name[i..] else ""
    case None => ""
  }

  /** `PurePath(name).stem`: the name without its suffix. */
  function Stem(name: string): string {
    match LastIndex(name, '.')
    case Some(i) => if 0 < i < |name| - 1 then name[..i] else name
    case None => name
  }

  /** The stem and the suffix make up the name; a suffix is empty or is a
      dot followed by at least one character that is not a dot. */
  lemma StemSuffixSplit(name: string)
    ensures Stem(name) + Suffix(name) == name
    ensures Suffix(name) == "" || (|Suffix(name)| >= 2 && Suffix(name)[0] == '.' && '.' !in Suffix(name)[1..])
  {
    match LastIndex(name, '.')
    case Some(i) =>
      if 0 < i < |name| - 1 {
        assert name[..i] + name[i..] == name;
        assert Suffix(name)[1..] == name[i + 1..];
      }
    case None =>
      assert name + "" == name;
  }

  /** `f"{stem}_{counter}{suffix}"`. */
  function Candidate(name: string, k: nat): string {
    Stem(name) + "_" + NatDigits(k) + Suffix(name)
  }

  /** Removing a common prefix and suffix. */
  lemma CancelEnds(a: string, x: string, y: string, b: string)
    requires a + x + b == a + y + b
    ensures x == y
  {
    var l := a + x + b;
    assert |x| == |y|;
    assert x == l[|a|..|a| + |x|];
  }

  /** Different counters give different names, and none is the name
      itself. */
  lemma CandidateDistinct(name: string, j: nat, k: nat)
    ensures Candidate(name, j) != name
    ensures Candidate(name, j) == Candidate(name, k) ==> j == k
  {
    StemSuffixSplit(name);
    assert |Candidate(name, j)| > |Stem(name)| + |Suffix(name)|;
    if Candidate(name, j) == Candidate(name, k) {
      var a := Stem(name) + "_";
      assert Candidate(name, j) == a + NatDigits(j) + Suffix(name);
      assert Candidate(name, k) == a + NatDigits(k) + Suffix(name);
      CancelEnds(a, NatDigits(j), NatDigits(k), Suffix(name));
      NatDigitsInjective(j, k);
    }
  }

  /** The name the conflict loop looks at in its round `c`: the name
      itself first, then the candidates 1, 2, ... */
  function Probe(name: string, c: nat): string {
    if c == 0 then name else Candidate(name, c)
  }

  /** The names looked at in the first `n` rounds. */
  function Probed(name: string, n: nat): set<string> {
    if n == 0 then {} else Probed(name, n - 1) + {Probe(name, n - 1)}
  }

  /** Only the rounds' probes are among the names looked at. */
  lemma {:induction false} ProbedOnly(name: string, n: nat, x: string)
    requires x in Probed(name, n)
    ensures exists c :: 0 <= c < n && x == Probe(name, c)
  {
    if x != Probe(name, n - 1) {
      ProbedOnly(name, n - 1, x);
    }
  }

  /** Every round's probe is among the names looked at. */
  lemma {:induction false} ProbedContains(name: string, n: nat)
    ensures forall c :: 0 <= c < n ==> Probe(name, c) in Probed(name, n)
  {
    if n > 0 {
      ProbedContains(name, n - 1);
    }
  }

  /** Every round looks at a name no earlier round looked at. */
  lemma ProbeFresh(name: string, n: nat)
    ensures Probe(name, n) !in Probed(name, n)
  {
    if Probe(name, n) in Probed(name, n) {
      ProbedOnly(name, n, Probe(name, n));
      var c :| 0 <= c < n && Probe(name, n) == Probe(name, c);
      CandidateDistinct(name, n, c);
    }
  }

  /** A round whose probe is taken leaves fewer taken names unprobed. */
  lemma ProbeShrinks(name: string, n: nat, existing: set<string>)
    requires Probe(name, n) in existing
    ensures |existing - Probed(name, n + 1)| < |existing - Probed(name, n)|
  {
    ProbeFresh(name, n);
    assert existing - Probed(name, n + 1) == (existing - Probed(name, n)) - {Probe(name, n)};
  }

  /** The file-name conflict loop: the name itself when it is free, else
      `stem_k + suffix` for the smallest k >= 1 that is free. `k` is the
      counter that produced the chosen name, 0 for the name itself. */
  method ChooseName(name: string, existing: set<string>) returns (chosen: string, k: nat)
    ensures chosen !in existing
    ensures k == 0 <==> name !in existing
    ensures k == 0 ==> chosen == name
    ensures k > 0 ==> chosen == Candidate(name, k)
    ensures forall j :: 1 <= j < k ==> Candidate(name, j) in existing
  {
    chosen := name;
    var counter: nat := 0;
    while chosen in existing
      invariant chosen == Probe(name, counter)
      invariant counter > 0 ==> name in existing
      invariant Probed(name, counter) <= existing
      decreases |existing - Probed(name, counter)|
    {
      ProbeShrinks(name, counter, existing);
      counter := counter + 1;
      chosen := Candidate(name, counter);
    }
    k := counter;
    ProbedContains(name, k);
    forall j | 1 <= j < k
      ensures Candidate(name, j) in existing
    {
      assert Probe(name, j) in Probed(name, k);
    }
  }

  /** `download_attachment`: the metadata lookups that can raise come
      first, then the name choice, then the download. On success the
      record names the chosen file and the directory holds it; on failure
      the packaged variants raise with the attachment's file name
      (`Failed(filename)`) and the script returns `None` (`Skipped`). */
  datatype Attempt = Got(record: Saved) | FailedWith(filename: string) | Skipped

  /** The lookups of `download_attachment` that can raise all succeed:
      "filename" and "content" are present and the file name is a string. */
  predicate Downloadable(attachment: JValue) {
    Has(attachment, "filename") && Has(attachment, "content") && Field(attachment, "filename", JNull).JStr?
  }

  method DownloadAttachment(variant: Variant, attachment: JValue, fetch: Fetch, existing: set<string>)
    returns (r: Result<Attempt>, after: set<string>)
    ensures r.Err? ==> after == existing
    ensures r.Ok? <==> Downloadable(attachment)
    ensures r.Ok? ==>
              var filename := Field(attachment, "filename", JNull).s;
              && existing <= after
              && (fetch == Fetched <==> r.value.Got?)
              && (r.value.Got? ==>
                    var rec := r.value.record;
                    && rec.filename !in existing && after == existing + {rec.filename}
                    && (filename !in existing ==> rec.filename == filename)
                    && rec.original == filename
                    && rec.mimeType == Field(attachment, "mimeType", JStr(""))
                    && (rec.id.Some? <==> variant == Src)
                    && (variant == Src ==> rec.id == Some(Field(attachment, "id", JNull))))
              && (r.value.FailedWith? <==> fetch.Failed? && variant != Script)
              && (r.value.FailedWith? ==> r.value.filename == filename)
              && (fetch == Failed(false) ==> after == existing)
              && (fetch == Failed(true) ==> exists n :: n !in existing && after == existing + {n})
  {
    after := existing;
    var f := Index(attachment, "filename");
    var content := Index(attachment, "content");
    if f.Err? {
      return Err(f.fault), after;
    }
    if content.Err? {
      return Err(content.fault), after;
    }
    if !f.value.JStr? {
      // `output_dir / filename` needs a string.
      return Err(TypeError), after;
    }
    var filename := f.value.s;
    var mime := Field(attachment, "mimeType", JStr(""));
    var chosen, _ := ChooseName(filename, existing);
    match fetch
    case Fetched =>
      after := existing + {chosen};
      var id := if variant == Src then Some(Field(attachment, "id", JNull)) else None;
      r := Ok(Got(Saved(id, chosen, filename, mime)));
    case Failed(left) =>
      if left {
        after := existing + {chosen};
      }
      r := Ok(if variant == Script then Skipped else FailedWith(filename));
  }

  /** What the loop of `DownloadAll` has done after the first `i`
      attachments: `kept` lists, in increasing order, exactly the positions
      among them that were fetched, and `saved[j]` is the record of the
      attachment at `kept[j]`. */
  predicate Progress(items: seq<JValue>, fetch: seq<Fetch>, i: nat, kept: seq<nat>, saved: seq<Saved>) {
    && i <= |items| == |fetch|
    && |kept| == |saved|
    && KeptFetched(items, fetch, i, kept, saved)
    && Increasing(kept)
    && AllKept(fetch, i, kept)
  }

  /** Each kept position is before `i`, was fetched, and names the record
      saved for it. */
  predicate KeptFetched(items: seq<JValue>, fetch: seq<Fetch>, i: nat, kept: seq<nat>, saved: seq<Saved>)
    requires |items| == |fetch| && |kept| == |saved|
  {
    && (forall j :: 0 <= j < |kept| ==> kept[j] < i && kept[j] < |items| && fetch[kept[j]] == Fetched)
    && (forall j :: 0 <= j < |kept| ==> Index(items[kept[j]], "filename") == Ok(JStr(saved[j].original)))
  }

  predicate Increasing(kept: seq<nat>) {
    forall j, l :: 0 <= j < l < |kept| ==> kept[j] < kept[l]
  }

  /** Every fetched position before `i` is kept. */
  predicate AllKept(fetch: seq<Fetch>, i: nat, kept: seq<nat>)
    requires i <= |fetch|
  {
    forall m :: 0 <= m < i && fetch[m] == Fetched ==> m in kept
  }

  /** The saved records name distinct files, none of which was there
      before and all of which are there now. */
  predicate FreshNames(saved: seq<Saved>, existing: set<string>, after: set<string>) {
    && existing <= after
    && (forall j :: 0 <= j < |saved| ==> saved[j].filename !in existing && saved[j].filename in after)
    && (forall j, l :: 0 <= j < l < |saved| ==> saved[j].filename != saved[l].filename)
  }

  lemma ProgressGot(items: seq<JValue>, fetch: seq<Fetch>, i: nat, kept: seq<nat>, saved: seq<Saved>, rec: Saved)
    requires Progress(items, fetch, i, kept, saved) && i < |items| && fetch[i] == Fetched
    requires Index(items[i], "filename") == Ok(JStr(rec.original))
    ensures Progress(items, fetch, i + 1, kept + [i], saved + [rec])
  {
    KeptFetchedGot(items, fetch, i, kept, saved, rec);
    IncreasingGot(kept, i);
    AllKeptGot(fetch, i, kept);
  }

  lemma KeptFetchedGot(items: seq<JValue>, fetch: seq<Fetch>, i: nat, kept: seq<nat>, saved: seq<Saved>, rec: Saved)
    requires |items| == |fetch| && |kept| == |saved| && i < |items| && fetch[i] == Fetched
    requires KeptFetched(items, fetch, i, kept, saved)
    requires Index(items[i], "filename") == Ok(JStr(rec.original))
    ensures KeptFetched(items, fetch, i + 1, kept + [i], saved + [rec])
  {
    var k, v := kept + [i], saved + [rec];
    assert forall j :: 0 <= j < |kept| ==> k[j] == kept[j] && v[j] == saved[j];
    assert k[|kept|] == i && v[|kept|] == rec;
  }

  lemma IncreasingGot(kept: seq<nat>, i: nat)
    requires Increasing(kept) && forall j :: 0 <= j < |kept| ==> kept[j] < i
    ensures Increasing(kept + [i])
  {
    var k := kept + [i];
    forall j, l | 0 <= j < l < |k|
      ensures k[j] < k[l]
    {
      assert k[j] == kept[j];
      if l < |kept| {
        assert k[l] == kept[l];
      }
    }
  }

  lemma AllKeptGot(fetch: seq<Fetch>, i: nat, kept: seq<nat>)
    requires i < |fetch| && AllKept(fetch, i, kept)
    ensures AllKept(fetch, i + 1, kept + [i])
  {
    var k := kept + [i];
    forall m | 0 <= m < i + 1 && fetch[m] == Fetched
      ensures m in k
    {
      if m < i {
        var j :| 0 <= j < |kept| && kept[j] == m;
        assert k[j] == m;
      } else {
        assert k[|kept|] == m;
      }
    }
  }

  lemma ProgressSkip(items: seq<JValue>, fetch: seq<Fetch>, i: nat, kept: seq<nat>, saved: seq<Saved>)
    requires Progress(items, fetch, i, kept, saved) && i < |items| && fetch[i] != Fetched
    ensures Progress(items, fetch, i + 1, kept, saved)
  {
  }

  lemma FreshGrow(saved: seq<Saved>, existing: set<string>, after: set<string>, more: set<string>)
    requires FreshNames(saved, existing, after) && after <= more
    ensures FreshNames(saved, existing, more)
  {
  }

  lemma FreshGot(saved: seq<Saved>, existing: set<string>, after: set<string>, rec: Saved)
    requires FreshNames(saved, existing, after) && rec.filename !in after
    ensures FreshNames(saved + [rec], existing, after + {rec.filename})
  {
    var v := saved + [rec];
    assert forall j :: 0 <= j < |saved| ==> v[j] == saved[j];
  }

  /** `download_all_attachments` / `download_attachments`: nothing for a
      falsy list; otherwise every attachment in order, keeping the records
      of the saved ones. A failed download is skipped; a malformed
      attachment raises and ends the whole call. A truthy string or dict
      yields strings when iterated, and indexing a string by "filename"
      raises. `kept` lists the positions of the saved attachments. */
  method DownloadAll(variant: Variant, attachments: JValue, fetch: seq<Fetch>, existing: set<string>)
    returns (r: Result<seq<Saved>>, kept: seq<nat>, after: set<string>)
    requires attachments.JList? ==> |fetch| == |attachments.items|
    ensures !Truthy(attachments) ==> r == Ok([]) && after == existing
    ensures Truthy(attachments) && !attachments.JList? ==> r.Err?
    ensures attachments.JList? ==>
              (r.Ok? <==> forall i :: 0 <= i < |attachments.items| ==> Downloadable(attachments.items[i]))
    ensures r.Ok? && attachments.JList? ==>
              var items := attachments.items;
              && |kept| == |r.value|
              && (forall j :: 0 <= j < |kept| ==> kept[j] < |items| && fetch[kept[j]] == Fetched)
              && (forall j :: 0 <= j < |kept| ==> Index(items[kept[j]], "filename") == Ok(JStr(r.value[j].original)))
              && (forall j, l :: 0 <= j < l < |kept| ==> kept[j] < kept[l])
              && (forall i :: 0 <= i < |items| && fetch[i] == Fetched ==> i in kept)
    ensures r.Ok? ==>
              && (forall j :: 0 <= j < |r.value| ==> r.value[j].filename !in existing)
              && (forall j, l :: 0 <= j < l < |r.value| ==> r.value[j].filename != r.value[l].filename)
              && existing <= after
  {
    kept := [];
    after := existing;
    if !Truthy(attachments) {
      return Ok([]), kept, after;
    }
    var it := Iter(attachments);
    if it.Err? {
      return Err(it.fault), kept, after;
    }
    if !attachments.JList? {
      // A string's characters and a dict's keys are strings, and
      // `attachment["filename"]` on a string raises.
      return Err(TypeError), kept, after;
    }
    r, kept, after := DownloadEach(variant, attachments.items, fetch, existing);
  }

  /** The loop of `DownloadAll` over a list of attachments. */
  method DownloadEach(variant: Variant, items: seq<JValue>, fetch: seq<Fetch>, existing: set<string>)
    returns (r: Result<seq<Saved>>, kept: seq<nat>, after: set<string>)
    requires |fetch| == |items|
    ensures r.Ok? <==> forall i :: 0 <= i < |items| ==> Downloadable(items[i])
    ensures r.Ok? ==> Progress(items, fetch, |items|, kept, r.value) && FreshNames(r.value, existing, after)
  {
    kept, after := [], existing;
    var saved: seq<Saved> := [];
    var i := 0;
    while i < |items|
      invariant Progress(items, fetch, i, kept, saved)
      invariant FreshNames(saved, existing, after)
      invariant forall j :: 0 <= j < i ==> Downloadable(items[j])
    {
      var a, next := DownloadAttachment(variant, items[i], fetch[i], after);
      if a.Err? {
        return Err(a.fault), kept, after;
      }
      if a.value.Got? {
        var rec := a.value.record;
        assert next == after + {rec.filename};
        ProgressGot(items, fetch, i, kept, saved, rec);
        FreshGot(saved, existing, after, rec);
        saved, kept := saved + [rec], kept + [i];
      } else {
        ProgressSkip(items, fetch, i, kept, saved);
        FreshGrow(saved, existing, after, next);
      }
      after := next;
      i := i + 1;
    }
    r := Ok(saved);
  }
}
