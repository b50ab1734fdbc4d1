/** The catalog song record shared by every part of the app. */
module Types {
  import opened Wrappers

  /** A catalog track. An absent optional field is modelled as `None`;
      for required text fields the empty string stands for "missing". */
  datatype Song = Song(
    id: string,
    title: string,
    image: string,
    album: string,
    url: string,
    previewUrl: Option<string>,
    duration: string,
    year: string,
    artist: string)

  /** JavaScript's `s || fallback` on a string: the empty string is falsy. */
  function OrElse(s: string, fallback: string): (r: string)
    ensures s != [] ==> r == s
    ensures s == [] ==> r == fallback
  {
    if s == [] then fallback else s
  }
}
