/** Fetching the memo list from the Memos API (get_new_memos, main.py:34-44,
    and the extraction at main.py:64). The HTTP request itself is not modelled:
    its outcome is an input, None when the request raised. */
module Fetch {
  import opened Options

  /** A memo as the API returns it; content None means the key is absent.
      The creation time is compared only with `>`, so any total order serves;
      it is modelled as an integer. */
  datatype Memo = Memo(content: Option<string>, createTime: int)

  /** The decoded response body; memos None means the "memos" key is absent. */
  datatype Body = Body(memos: Option<seq<Memo>>)

  /** The request headers: a bearer credential exactly when the token is set
      and non-empty, otherwise none at all. */
  function AuthHeaders(token: Option<string>): (h: map<string, string>)
    ensures token.Some? && token.value != "" ==> h == map["Authorization" := "Bearer " + token.value]
    ensures token.None? || token.value == "" ==> h == map[]
  {
    if token.Some? && token.value != "" then map["Authorization" := "Bearer " + token.value] else map[]
  }

  /** What get_new_memos hands back: the body on success, a body with an empty
      memo list when the request failed. */
  function Fetched(response: Option<Body>): Body
  {
    match response
    case None => Body(Some([]))
    case Some(body) => body
  }

  /** The memo list of a body, empty when the "memos" key is missing. */
  function MemoList(b: Body): seq<Memo>
  {
    match b.memos
    case None => []
    case Some(list) => list
  }

  /** The memos a cycle gets: none when the request failed or the body has no
      "memos" key, the body's list otherwise. */
  lemma MemosOfFetch(response: Option<Body>)
    ensures response.None? || response.value.memos.None? ==> MemoList(Fetched(response)) == []
    ensures response.Some? && response.value.memos.Some? ==> MemoList(Fetched(response)) == response.value.memos.value
  {
  }
}
