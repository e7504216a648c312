/** What `http_post` and `http_get` prepare before the transfer: the empty response buffer,
    for a POST the body cursor and the declared body length, and the URL. */
module Http {
  import opened CString
  import opened Url
  import opened RequestBody
  import opened ResponseBuffer

  /** `http_post` up to the transfer. */
  method PreparePost(host: string, port: Unsigned, path: string, json: seq<byte>)
    returns (url: string, response: DataToStore, data: DataToSend, postFieldSize: nat)
    requires Terminated(json)
    ensures fresh(response) && response.Valid() && response.Contents() == []
    ensures fresh(data) && data.Valid() && data.Remaining() == Visible(json)
    ensures postFieldSize == CStrLen(json) == |data.Remaining()|
    ensures url == Format(host, port, Stripped(path))
  {
    response := new DataToStore();
    data := new DataToSend(json);
    url := BuildUrl(host, port, path);
    postFieldSize := data.size;
  }

  /** `http_get` up to the transfer. */
  method PrepareGet(host: string, port: Unsigned, path: string)
    returns (url: string, response: DataToStore)
    ensures fresh(response) && response.Valid() && response.Contents() == []
    ensures url == Format(host, port, Stripped(path))
  {
    response := new DataToStore();
    url := BuildUrl(host, port, path);
  }
}
