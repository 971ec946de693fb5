/** The data types shared by the redirector: one table record and the page status. */
module Types {

  /** One entry of the redirect table: the short name matched against the path,
      the URL it leads to, and a free-text description used by the search. */
  datatype UserData = UserData(nama: string, link: string, deskripsi: string)

  /** The four mutually exclusive states of the page. */
  datatype Status = Idle | Redirecting | NotFound | Home

  /** A value that may be absent, as returned by a lookup that can miss. */
  datatype Option<+T> = None | Some(value: T)
}
