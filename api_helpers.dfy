/**
 * The string and path logic of `ApiHelper`
 * (automation_framework/utilities/api_helpers.py): the weather URL, the
 * filter over the city-path completion response, and the walk up to the
 * project root. The HTTP calls themselves are not modelled: their responses
 * are inputs, and the file system is the predicate `pathExists`.
 */
module ApiHelpers {
  import opened Wrappers
  import opened Sequences
  import opened Text

  // ---------------------------------------------------------------------------
  // get_current_weather: the request URL

  /** The URL `get_current_weather` requests. */
  function WeatherUrl(baseUrl: string, city: string, apiKey: string): (url: string)
    ensures StartsWith(url, baseUrl + "?q=")
    ensures |url| == |baseUrl| + |city| + |apiKey| + 10
  {
    baseUrl + "?q=" + city + "&appid=" + apiKey
  }

  function IsAmpersand(c: char): bool {
    c == '&'
  }

  /** How the endpoint reads such a URL back: the `q` value up to the first `&`, then the `appid` value. */
  function QueryOf(baseUrl: string, url: string): Option<(string, string)> {
    var head := baseUrl + "?q=";
    if !StartsWith(url, head) then None
    else
      var rest := url[|head|..];
      match FirstIndex(rest, IsAmpersand)
      case None => None
      case Some(j) =>
        if StartsWith(rest[j..], "&appid=") then Some((rest[..j], rest[j + 7..])) else None
  }

  /** A city without `&` and the key are recovered exactly from the weather URL. */
  lemma QueryOfWeatherUrl(baseUrl: string, city: string, apiKey: string)
    requires '&' !in city
    ensures QueryOf(baseUrl, WeatherUrl(baseUrl, city, apiKey)) == Some((city, apiKey))
  {
    var head := baseUrl + "?q=";
    var tail := "&appid=" + apiKey;
    var url := WeatherUrl(baseUrl, city, apiKey);
    assert url == head + (city + tail);
    assert url[..|head|] == head;
    var rest := url[|head|..];
    assert rest == city + tail;
    forall k | 0 <= k < |city|
      ensures !IsAmpersand(rest[k])
    {
      assert rest[k] == city[k];
    }
    assert rest[|city|] == tail[0] == '&';
    FirstIndexAt(rest, IsAmpersand, |city|);
    assert rest[|city|..] == tail;
    assert tail[..7] == "&appid=";
    assert rest[..|city|] == city;
    assert rest[|city| + 7..] == apiKey;
  }

  // ---------------------------------------------------------------------------
  // get_test: the first usable city path in a completion response

  /** A completion line that `get_test` accepts. */
  predicate Usable(line: string) {
    StartsWith(line, "/weather/") && '@' !in line
  }

  /** The three filters as written, of which the first is implied by the second. */
  lemma SlashTestIsRedundant(line: string)
    ensures (StartsWith(line, "/") && StartsWith(line, "/weather/") && '@' !in line) == Usable(line)
  {
    if StartsWith(line, "/weather/") {
      assert line[..1] == line[..9][..1];
    }
  }

  /** A separator-free prefix of `s` is also a prefix of the first piece of `s.split(sep)`. */
  lemma {:induction false} SplitHeadKeepsPrefix(s: string, sep: char, p: string)
    requires p <= s && sep !in p
    ensures p <= Split(s, sep)[0]
    decreases |s|
  {
    if |p| > 0 {
      assert s[0] == p[0] && p[0] in p;
      assert p[1..] <= s[1..];
      assert forall c :: c in p[1..] ==> c in p;
      SplitHeadKeepsPrefix(s[1..], sep, p[1..]);
    }
  }

  /**
   * `get_test` after the fetch: the first `\t`-field of the first line, in the
   * `\n`-split of the response text, that starts with `/weather/` and has no `@`.
   */
  method GetTest(responseText: string) returns (path: Option<string>)
    ensures var lines := Split(responseText, '\n');
            path.None? <==> forall i :: 0 <= i < |lines| ==> !Usable(lines[i])
    ensures var lines := Split(responseText, '\n');
            path.Some? ==> exists i :: 0 <= i < |lines| && Usable(lines[i])
                                     && (forall k :: 0 <= k < i ==> !Usable(lines[k]))
                                     && path.value == Split(lines[i], '\t')[0]
    ensures path.Some? ==> StartsWith(path.value, "/weather/") && '@' !in path.value && '\t' !in path.value
  {
    var lines := Split(responseText, '\n');
    for i := 0 to |lines|
      invariant forall k :: 0 <= k < i ==> !Usable(lines[k])
    {
      var line := lines[i];
      SlashTestIsRedundant(line);
      if !StartsWith(line, "/") {
        continue;
      }
      if !StartsWith(line, "/weather/") {
        continue;
      }
      if '@' in line {
        continue;
      }
      var value := Split(line, '\t')[0];
      SplitHeadKeepsPrefix(line, '\t', "/weather/");
      assert line[..9] == "/weather/";
      assert forall c :: c in value ==> c in line;
      assert Split(responseText, '\n')[i] == line && Usable(line);
      return Some(value);
    }
    return None;
  }

  // ---------------------------------------------------------------------------
  // find_root_directory

  /** An absolute directory as its components below `/`; `[]` is `/` itself. */
  type Path = seq<string>

  const Marker := "automation_framework"

  /**
   * Walk up from `start` (the start included, `/` excluded) to the nearest
   * directory that has a `Marker` child; `Err` is the `FileNotFoundError`.
   */
  method FindRootDirectory(start: Path, pathExists: Path -> bool) returns (r: Result<Path, string>)
    ensures r.Ok? ==> r.value <= start && r.value != [] && pathExists(r.value + [Marker])
    ensures r.Ok? ==> forall k :: |r.value| < k <= |start| ==> !pathExists(start[..k] + [Marker])
    ensures r.Err? <==> forall k :: 0 < k <= |start| ==> !pathExists(start[..k] + [Marker])
  {
    var current := start;
    while current != []
      invariant current <= start
      invariant forall k :: |current| < k <= |start| ==> !pathExists(start[..k] + [Marker])
      decreases |current|
    {
      assert start[..|current|] == current;
      if pathExists(current + [Marker]) {
        return Ok(current);
      }
      current := current[..|current| - 1];
    }
    return Err("Root directory containing 'automation_framework' not found.");
  }
}
