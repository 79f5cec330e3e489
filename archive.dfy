/**
 * Acquisition of the raw data files (download_data and check_if_data_exists in
 * src/app.py). The HTTP listing, BeautifulSoup and the file system are outside the
 * model: the hrefs of a listing's anchors are a parameter, and the data directory is
 * a flag plus the log of the files downloaded (the listing requests are not logged).
 */
module Archive {
  import opened Wrappers
  import opened Tags

  /** The listing page of one hemisphere in the NOAA/NSIDC G02135 archive. */
  function ArchiveUrl(region: string): string {
    "https://noaadata.apps.nsidc.org/NOAA/G02135/" + region + "/monthly/data/"
  }

  /** One file download: the URL requested and the name the response is saved under. */
  datatype Fetch = Fetch(url: string, file: string)

  /** The download for one listed href: tags stripped from the URL, the raw href as file name. */
  function FetchFor(archiveUrl: string, href: string): Fetch {
    Fetch(archiveUrl + StripTags(href), href)
  }

  /** The downloads for `hrefs`, one per href, in order. */
  function Fetches(archiveUrl: string, hrefs: seq<string>): (plan: seq<Fetch>)
    ensures |plan| == |hrefs|
    ensures forall i :: 0 <= i < |hrefs| ==>
              plan[i].url == archiveUrl + StripTags(hrefs[i]) && plan[i].file == hrefs[i]
  {
    if hrefs == [] then [] else [FetchFor(archiveUrl, hrefs[0])] + Fetches(archiveUrl, hrefs[1..])
  }

  /** The anchors download_data walks: all but the first (the parent-directory link). */
  function Listed(anchors: seq<string>): (hrefs: seq<string>)
    ensures |anchors| == 0 ==> hrefs == []
    ensures |anchors| > 0 ==> |hrefs| == |anchors| - 1 &&
                              forall i :: 0 <= i < |hrefs| ==> hrefs[i] == anchors[i + 1]
  {
    if anchors == [] then [] else anchors[1..]
  }

  /** The downloads download_data performs for one hemisphere's listing. */
  function PlanDownloads(archiveUrl: string, anchors: seq<string>): (plan: seq<Fetch>) {
    Fetches(archiveUrl, Listed(anchors))
  }

  /** Download planning skips the first anchor and maps each other href `h` to (archive + strip(h), h). */
  lemma PlanDownloadsSpec(archiveUrl: string, anchors: seq<string>)
    ensures |anchors| <= 1 ==> PlanDownloads(archiveUrl, anchors) == []
    ensures |anchors| > 1 ==> |PlanDownloads(archiveUrl, anchors)| == |anchors| - 1
    ensures forall i :: 1 <= i < |anchors| ==>
              PlanDownloads(archiveUrl, anchors)[i - 1] ==
              Fetch(archiveUrl + StripTags(anchors[i]), anchors[i])
  {
  }

  /** The answer to the consent prompt: an empty answer counts as "y". */
  function EffectiveResponse(response: string): (r: string)
    ensures response == "" ==> r == "y"
    ensures response != "" ==> r == response
  {
    if response == "" then "y" else response
  }

  /** Only the exact answer "y" (or an empty one) consents to the download. */
  predicate Consents(response: string) {
    EffectiveResponse(response) == "y"
  }

  lemma ConsentsExactly(response: string)
    ensures Consents(response) <==> response == "" || response == "y"
    ensures !Consents("Y") && !Consents("yes") && !Consents("n")
  {
  }

  /** The observable state of the local cache: the data directory, prompts shown, downloads done. */
  datatype CacheState = CacheState(dirExists: bool, prompts: nat, downloads: seq<Fetch>)

  /**
   * One call of check_if_data_exists as a state transition; `north` and `south` are the
   * anchors of the two listing pages. Yields the new state and the returned flag.
   */
  function Check(st: CacheState, response: string, north: seq<string>, south: seq<string>)
    : (CacheState, bool)
  {
    if st.dirExists then (st, true)
    else if Consents(response) then
      (CacheState(true, st.prompts + 1, st.downloads + FirstRunDownloads(north, south)), true)
    else (CacheState(false, st.prompts + 1, st.downloads), false)
  }

  /** An existing directory is trusted: true, no prompt, no directory change, no download. */
  lemma CheckWhenCached(st: CacheState, response: string, north: seq<string>, south: seq<string>)
    requires st.dirExists
    ensures Check(st, response, north, south) == (st, true)
  {
  }

  /** The downloads a consenting first run performs: north's listing, then south's. */
  function FirstRunDownloads(north: seq<string>, south: seq<string>): seq<Fetch> {
    PlanDownloads(ArchiveUrl("north"), north) + PlanDownloads(ArchiveUrl("south"), south)
  }

  /** A missing directory: one prompt; only consent creates it and downloads north then south. */
  lemma CheckWhenMissing(st: CacheState, response: string, north: seq<string>, south: seq<string>)
    requires !st.dirExists
    ensures Check(st, response, north, south).0.prompts == st.prompts + 1
    ensures Check(st, response, north, south).1 == Consents(response)
    ensures Check(st, response, north, south).0.dirExists == Consents(response)
    ensures Consents(response) ==>
              Check(st, response, north, south).0.downloads == st.downloads + FirstRunDownloads(north, south)
    ensures !Consents(response) ==> Check(st, response, north, south).0.downloads == st.downloads
  {
  }

  /** Any second call finds the outcome of the first settled: no more prompts or downloads once the directory exists. */
  lemma {:induction false} CheckTwice(st: CacheState, r1: string, r2: string, north: seq<string>, south: seq<string>)
    ensures var (st1, ok1) := Check(st, r1, north, south);
            var (st2, ok2) := Check(st1, r2, north, south);
            ok1 ==> st2 == st1 && ok2
  {
    var (st1, ok1) := Check(st, r1, north, south);
    if ok1 {
      assert st1.dirExists;
      CheckWhenCached(st1, r2, north, south);
    }
  }

  /** The data directory and the record of what the program did to it. */
  class DataStore {
    var dirExists: bool
    var prompts: nat
    var downloads: seq<Fetch>

    constructor (dirExists: bool)
      ensures this.dirExists == dirExists && prompts == 0 && downloads == []
    {
      this.dirExists := dirExists;
      prompts := 0;
      downloads := [];
    }

    ghost function State(): CacheState
      reads this
    {
      CacheState(dirExists, prompts, downloads)
    }

    /** download_data: request every listed file but the first and save it under its raw href. */
    method DownloadData(region: string, anchors: seq<string>)
      modifies this
      ensures downloads == old(downloads) + PlanDownloads(ArchiveUrl(region), anchors)
      ensures dirExists == old(dirExists) && prompts == old(prompts)
    {
      var archiveUrl := ArchiveUrl(region);
      var hrefs := Listed(anchors);
      for i := 0 to |hrefs|
        invariant dirExists == old(dirExists) && prompts == old(prompts)
        invariant downloads == old(downloads) + Fetches(archiveUrl, hrefs[..i])
      {
        var fetch := FetchFor(archiveUrl, hrefs[i]);
        FetchesStep(archiveUrl, hrefs, i);
        ConcatAssoc(old(downloads), Fetches(archiveUrl, hrefs[..i]), [fetch]);
        downloads := downloads + [fetch];
      }
      assert hrefs[..|hrefs|] == hrefs;
    }

    /** check_if_data_exists, with the prompt's answer and both listings as parameters. */
    method CheckIfDataExists(response: string, north: seq<string>, south: seq<string>)
      returns (available: bool)
      modifies this
      ensures State() == Check(old(State()), response, north, south).0
      ensures available == Check(old(State()), response, north, south).1
      ensures old(dirExists) ==> available && unchanged(this)
      ensures !old(dirExists) ==> available == Consents(response) && dirExists == available
    {
      if !dirExists {
        prompts := prompts + 1;
        var answer := response;
        if answer == "" {
          answer := "y";
        }
        assert answer == EffectiveResponse(response);
        if answer == "y" {
          dirExists := true;
          ghost var before := downloads;
          DownloadData("north", north);
          DownloadData("south", south);
          ConcatAssoc(before, PlanDownloads(ArchiveUrl("north"), north), PlanDownloads(ArchiveUrl("south"), south));
          return true;
        } else {
          return false;
        }
      } else {
        return true;
      }
    }
  }

  /** One more href of the listing walked: its download follows the ones before it. */
  lemma FetchesStep(archiveUrl: string, hrefs: seq<string>, i: nat)
    requires i < |hrefs|
    ensures Fetches(archiveUrl, hrefs[..i + 1]) == Fetches(archiveUrl, hrefs[..i]) + [FetchFor(archiveUrl, hrefs[i])]
  {
    assert hrefs[..i + 1] == hrefs[..i] + [hrefs[i]];
    FetchesSnoc(archiveUrl, hrefs[..i], hrefs[i]);
  }

  lemma {:induction false} FetchesSnoc(archiveUrl: string, hrefs: seq<string>, h: string)
    ensures Fetches(archiveUrl, hrefs + [h]) == Fetches(archiveUrl, hrefs) + [FetchFor(archiveUrl, h)]
  {
    var l, r := Fetches(archiveUrl, hrefs + [h]), Fetches(archiveUrl, hrefs) + [FetchFor(archiveUrl, h)];
    assert |l| == |r|;
    forall i | 0 <= i < |l| ensures l[i] == r[i] {
      if i < |hrefs| {
        assert (hrefs + [h])[i] == hrefs[i];
      }
    }
  }
}
