/** The parsed form of a URL, as the scripts see it through the host's `URL` class.

    Parsing itself (`new URL(s)`) is the host's business and appears in the model only
    as a parameter of type `Parser`: `None` stands for the `TypeError` an invalid URL
    raises. Serialisation (`toString()`) is `Href` below. */
module UrlRecords {
  import opened Common

  /** One `name=value` pair of the query, already decoded. */
  datatype Param = Param(name: string, value: string)

  /** `protocol` keeps its colon ("https:"), `fragment` its "#" (or is empty). */
  datatype UrlRecord = UrlRecord(
    protocol: string,
    hostname: string,
    port: string,
    path: string,
    query: seq<Param>,
    fragment: string)

  /** `new URL(s)`: a record, or `None` when the constructor throws. */
  type Parser = string -> Option<UrlRecord>

  /** `searchParams.get(name)`: the value of the first pair with that name. */
  function Get(query: seq<Param>, name: string): (r: Option<string>)
    ensures r.Some? <==> exists i :: 0 <= i < |query| && query[i].name == name
    ensures r.Some? ==> exists i :: 0 <= i < |query| && query[i].name == name && query[i].value == r.value &&
                          (forall j :: 0 <= j < i ==> query[j].name != name)
  {
    if |query| == 0 then None
    else if query[0].name == name then Some(query[0].value)
    else
      var r := Get(query[1..], name);
      assert forall i :: 1 <= i < |query| ==> query[i] == query[1..][i - 1];
      if r.Some? then
        var i :| 0 <= i < |query[1..]| && query[1..][i].name == name && query[1..][i].value == r.value &&
                 (forall j :: 0 <= j < i ==> query[1..][j].name != name);
        assert query[i + 1].name == name && query[i + 1].value == r.value;
        r
      else r
  }

  function ParamText(p: Param): string {
    p.name + "=" + p.value
  }

  function QueryText(query: seq<Param>): (s: string)
    ensures |query| == 0 <==> s == ""
  {
    if |query| == 0 then "" else "?" + Join(seq(|query|, i requires 0 <= i < |query| => ParamText(query[i])), "&")
  }

  /** `url.toString()`: scheme, "//", host, optional port, path, query, fragment. */
  function Href(u: UrlRecord): (s: string)
    ensures StartsWith(s, u.protocol + "//" + u.hostname)
    ensures EndsWith(s, u.fragment)
  {
    var head := u.protocol + "//" + u.hostname;
    var tail := (if u.port == "" then "" else ":" + u.port) + u.path + QueryText(u.query) + u.fragment;
    assert head + tail == head + ((if u.port == "" then "" else ":" + u.port) + u.path + QueryText(u.query)) + u.fragment;
    head + tail
  }
}
