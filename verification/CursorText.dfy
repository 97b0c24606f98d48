/** A paging cursor as it travels in a URL. */
module CursorText {
  import opened Common
  import opened Text
  import opened Paging

  function Encode(c: Cursor): string {
    if !c.Set() then "" else FormatInt(c.createdAt) + "." + c.id
  }

  /** A malformed cursor starts the listing from the top. */
  function ParseCursor(s: string): Cursor {
    match Cut(s, '.')
    case None => ZERO
    case Some((ts, id)) =>
      match ParseInt(ts)
      case None => ZERO
      case Some(created) => if id == "" then ZERO else Cursor(created, id)
  }

  /** Decoding inverts encoding for every position a listing can hand out, dots in the id included;
      everything that points nowhere decodes to the zero cursor. */
  lemma CursorRoundTrip(c: Cursor)
    requires IsInt64(c.createdAt)
    ensures ParseCursor(Encode(c)) == if c.Set() then c else ZERO
  {
    if c.Set() {
      FormatParses(c.createdAt);
      CutAtFirst(FormatInt(c.createdAt), '.', c.id);
    }
  }

  /** Only a 64-bit integer, a dot and an id point anywhere; whatever else is sent starts from the top. */
  lemma ParsedCursorIs(s: string, createdAt: int, id: string)
    ensures ParseCursor(s) == Cursor(createdAt, id) && id != "" <==>
      id != "" && exists ts :: '.' !in ts && s == ts + "." + id && ParseInt(ts) == Some(createdAt)
    ensures !ParseCursor(s).Set() ==> ParseCursor(s) == Cursor(0, "")
  {
    CutIs(s, '.');
    if id != "" {
      if ts :| '.' !in ts && s == ts + "." + id && ParseInt(ts) == Some(createdAt) {
        CutAtFirst(ts, '.', id);
      }
      if ParseCursor(s) == Cursor(createdAt, id) {
        var (ts, rest) := Cut(s, '.').value;
        assert '.' !in ts && s == ts + "." + id && ParseInt(ts) == Some(createdAt);
      }
    }
  }

  /** What a client sends back, however written, names the same position as its canonical form. */
  lemma ParsingIsStable(s: string)
    ensures ParseCursor(Encode(ParseCursor(s))) == ParseCursor(s)
  {
    CursorRoundTrip(ParseCursor(s));
  }
}
