/**
 * The folder names `single_url_main.py` builds: one per test, named after the
 * test, and one per URL, named after the URL without its scheme.
 */
module FolderNames {
  import PyStr

  const Http := "http://"
  const Https := "https://"

  /** `test_name.replace(" ", "_")`: each space becomes an underscore, nothing else changes. */
  function TestFolderName(testName: string): (r: string)
    ensures |r| == |testName|
    ensures forall i | 0 <= i < |r| :: r[i] == (if testName[i] == ' ' then '_' else testName[i])
    ensures ' ' !in r
  {
    PyStr.Replace(testName, " ", "_")
  }

  /**
   * `url.replace("http://", "").replace("https://", "").replace("/", "_")`:
   * the result holds no slash, is no longer than the URL, and is made of the
   * URL's characters and underscores.
   */
  function UrlFolderName(url: string): (r: string)
    ensures '/' !in r
    ensures |r| <= |url|
    ensures forall c | c in r :: c in url || c == '_'
  {
    var withoutHttp := PyStr.Replace(url, Http, "");
    var withoutHttps := PyStr.Replace(withoutHttp, Https, "");
    PyStr.ReplaceShrinks(url, Http, "");
    PyStr.ReplaceShrinks(withoutHttp, Https, "");
    PyStr.Replace(withoutHttps, "/", "_")
  }

  /** A URL and the same URL behind an "http://" scheme get the same folder. */
  lemma HttpDropped(rest: string)
    ensures UrlFolderName(Http + rest) == UrlFolderName(rest)
  {
    var withoutHttp := PyStr.Replace(rest, Http, "");
    assert PyStr.Replace(Http + rest, Http, "") == withoutHttp by {
      PyStr.ReplaceFront(rest, Http, "");
      assert "" + withoutHttp == withoutHttp;
    }
  }

  /** A URL and the same URL behind an "https://" scheme get the same folder. */
  lemma HttpsDropped(rest: string)
    ensures UrlFolderName(Https + rest) == UrlFolderName(rest)
  {
    var withoutHttp := PyStr.Replace(rest, Http, "");
    assert PyStr.Replace(Https + rest, Http, "") == Https + withoutHttp by {
      HttpsKept(rest);
    }
    assert PyStr.Replace(Https + withoutHttp, Https, "") == PyStr.Replace(withoutHttp, Https, "") by {
      PyStr.ReplaceFront(withoutHttp, Https, "");
      assert "" + PyStr.Replace(withoutHttp, Https, "") == PyStr.Replace(withoutHttp, Https, "");
    }
  }

  /** A URL starting "https://" does not start "http://": the fifth characters differ. */
  lemma HttpsNotHttp(rest: string)
    ensures var s := Https + rest; !(|Http| <= |s| && s[..|Http|] == Http)
  {
    var s := Https + rest;
    assert s[4] == 's' && Http[4] == ':';
  }

  /** Removing "http://" leaves an "https://" scheme in place. */
  lemma HttpsKept(rest: string)
    ensures PyStr.Replace(Https + rest, Http, "") == Https + PyStr.Replace(rest, Http, "")
  {
    HttpsNotHttp(rest);
    assert Https[1..] == "ttps://";
    assert 'h' !in Https[1..];
    PyStr.ReplaceCopiesHead(Https, rest, Http, "");
  }
}
