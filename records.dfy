/** The records the scraper assembles: a job as listed and enriched, and its key facts. */
module Records {
  import opened Wrappers

  /** The five key facts read from a detail page. */
  datatype KeyInfo = KeyInfo(
    publicationDate: string,
    workload: string,
    contractType: string,
    language: string,
    placeOfWork: string)

  /** The record given to a job whose detail page could not be read: every fact "". */
  const EmptyKeyInfo := KeyInfo("", "", "", "", "")

  /**
   * A job. The listing pass sets the first seven fields; `description` and `keyInfo`
   * are absent (`None`) until enrichment sets them.
   */
  datatype Job = Job(
    title: string,
    company: string,
    location: string,
    workload: string,
    contractType: string,
    postedText: string,
    link: string,
    description: Option<string>,
    keyInfo: Option<KeyInfo>)

  /** The set of links of a list of jobs (`new Set(allJobs.map((j) => j.link))`). */
  function Links(js: seq<Job>): set<string>
    decreases |js|
  {
    if js == [] then {} else Links(js[..|js| - 1]) + {js[|js| - 1].link}
  }

  /** A link is in the set exactly when some job carries it. */
  lemma {:induction false} LinksIff(js: seq<Job>, l: string)
    ensures l in Links(js) <==> exists k :: 0 <= k < |js| && js[k].link == l
    decreases |js|
  {
    if js != [] {
      var n := |js| - 1;
      LinksIff(js[..n], l);
      if exists k :: 0 <= k < n && js[..n][k].link == l {
        var k :| 0 <= k < n && js[..n][k].link == l;
        assert js[k] == js[..n][k];
      }
      if exists k :: 0 <= k < |js| && js[k].link == l {
        var k :| 0 <= k < |js| && js[k].link == l;
        if k < n { assert js[..n][k] == js[k]; }
      }
    }
  }

  lemma LinksSnoc(js: seq<Job>, j: Job)
    ensures Links(js + [j]) == Links(js) + {j.link}
  {
    assert (js + [j])[..|js|] == js;
  }

  lemma {:induction false} LinksConcat(a: seq<Job>, b: seq<Job>)
    ensures Links(a + b) == Links(a) + Links(b)
    decreases |b|
  {
    if b == [] {
      assert a + b == a;
    } else {
      var n := |b| - 1;
      LinksConcat(a, b[..n]);
      assert a + b == (a + b[..n]) + [b[n]];
      assert b == b[..n] + [b[n]];
      LinksSnoc(a + b[..n], b[n]);
      LinksSnoc(b[..n], b[n]);
    }
  }

  /** No two jobs share a link. */
  predicate LinksDistinct(js: seq<Job>) {
    forall i, j :: 0 <= i < j < |js| ==> js[i].link != js[j].link
  }

  /** A prefix of a list with distinct links has distinct links. */
  lemma DistinctPrefix(js: seq<Job>, n: nat)
    requires n <= |js| && LinksDistinct(js)
    ensures LinksDistinct(js[..n])
  {
    forall a, b | 0 <= a < b < n ensures js[..n][a].link != js[..n][b].link {
      assert js[..n][a] == js[a] && js[..n][b] == js[b];
    }
  }

  /** The first job in `js` with link `l`, if any. */
  function FirstWith(js: seq<Job>, l: string): (r: Option<Job>)
    ensures r.Some? ==> r.value.link == l
    decreases |js|
  {
    if js == [] then None
    else if js[0].link == l then Some(js[0])
    else FirstWith(js[1..], l)
  }

  /** The job found is the earliest one with the link; none is found when no job has it. */
  lemma {:induction false} FirstWithFirst(js: seq<Job>, l: string)
    ensures FirstWith(js, l).None? ==> forall i :: 0 <= i < |js| ==> js[i].link != l
    ensures FirstWith(js, l).Some? ==>
      exists i :: (0 <= i < |js| && js[i] == FirstWith(js, l).value
                   && forall j :: 0 <= j < i ==> js[j].link != l)
    decreases |js|
  {
    if js != [] && js[0].link != l {
      FirstWithFirst(js[1..], l);
      if FirstWith(js, l).Some? {
        var i :| (0 <= i < |js[1..]| && js[1..][i] == FirstWith(js, l).value
                  && forall j :: 0 <= j < i ==> js[1..][j].link != l);
        assert js[i + 1] == js[1..][i];
        forall j | 0 <= j < i + 1 ensures js[j].link != l {
          if j > 0 {
            assert js[j] == js[1..][j - 1];
          }
        }
      } else {
        forall i | 0 <= i < |js| ensures js[i].link != l {
          if i > 0 {
            assert js[i] == js[1..][i - 1];
          }
        }
      }
    } else if js != [] {
      assert js[0] == FirstWith(js, l).value;
    }
  }

  /** There is a first job with a link exactly when the link occurs. */
  lemma {:induction false} FirstWithSome(js: seq<Job>, l: string)
    ensures FirstWith(js, l).Some? <==> l in Links(js)
    decreases |js|
  {
    if js != [] {
      FirstWithSome(js[1..], l);
      assert js == [js[0]] + js[1..];
      LinksConcat([js[0]], js[1..]);
      LinksSnoc([], js[0]);
      assert [] + [js[0]] == [js[0]];
    }
  }
}
