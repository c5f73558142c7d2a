/** The words of the protocols, spelt out letter by letter. */
module Words {
  import opened Bytes
  import Daemon
  import HttpParse
  import Json
  import Listing
  import Publication
  import Ranges

  /** "path" */
  lemma Path()
    ensures Listing.PATH ==
            [Ascii('p'), Ascii('a'), Ascii('t'), Ascii('h')]
  {}

  /** "entries" */
  lemma Entries()
    ensures Listing.ENTRIES ==
            [Ascii('e'), Ascii('n'), Ascii('t'), Ascii('r'), Ascii('i'), Ascii('e'), Ascii('s')]
  {}

  /** "name" */
  lemma Name()
    ensures Listing.NAME ==
            [Ascii('n'), Ascii('a'), Ascii('m'), Ascii('e')]
  {}

  /** "type" */
  lemma Type()
    ensures Listing.TYPE ==
            [Ascii('t'), Ascii('y'), Ascii('p'), Ascii('e')]
  {}

  /** "size" */
  lemma Size()
    ensures Listing.SIZE ==
            [Ascii('s'), Ascii('i'), Ascii('z'), Ascii('e')]
  {}

  /** "mtime" */
  lemma Mtime()
    ensures Listing.MTIME ==
            [Ascii('m'), Ascii('t'), Ascii('i'), Ascii('m'), Ascii('e')]
  {}

  /** "etag" */
  lemma Etag()
    ensures Listing.ETAG ==
            [Ascii('e'), Ascii('t'), Ascii('a'), Ascii('g')]
  {}

  /** "dir" */
  lemma DirWord()
    ensures Listing.KindWord(Listing.IsDir) ==
            [Ascii('d'), Ascii('i'), Ascii('r')]
  {}

  /** "file" */
  lemma FileWord()
    ensures Listing.KindWord(Listing.IsRegular) ==
            [Ascii('f'), Ascii('i'), Ascii('l'), Ascii('e')]
  {}

  /** "other" */
  lemma OtherWord()
    ensures Listing.KindWord(Listing.IsOther) ==
            [Ascii('o'), Ascii('t'), Ascii('h'), Ascii('e'), Ascii('r')]
  {}

  /** "null" */
  lemma NullWord()
    ensures Json.NULLWORD ==
            [Ascii('n'), Ascii('u'), Ascii('l'), Ascii('l')]
  {}

  /** "true" */
  lemma TrueWord()
    ensures Json.TRUEWORD ==
            [Ascii('t'), Ascii('r'), Ascii('u'), Ascii('e')]
  {}

  /** "false" */
  lemma FalseWord()
    ensures Json.FALSEWORD ==
            [Ascii('f'), Ascii('a'), Ascii('l'), Ascii('s'), Ascii('e')]
  {}

  /** "Content-Length" */
  lemma ContentLength()
    ensures HttpParse.CONTENTLENGTH[..8] ==
            [Ascii('C'), Ascii('o'), Ascii('n'), Ascii('t'), Ascii('e'), Ascii('n'), Ascii('t'), Ascii('-')]
    ensures HttpParse.CONTENTLENGTH[8..] ==
            [Ascii('L'), Ascii('e'), Ascii('n'), Ascii('g'), Ascii('t'), Ascii('h')]
  {}

  /** "If-None-", "Match" */
  lemma IfNone()
    ensures |Daemon.IFNONEMATCH| == 13
    ensures Daemon.IFNONEMATCH[0] == Ascii('I') && Daemon.IFNONEMATCH[1] == Ascii('f')
            && Daemon.IFNONEMATCH[2] == Ascii('-') && Daemon.IFNONEMATCH[3] == Ascii('N')
            && Daemon.IFNONEMATCH[4] == Ascii('o') && Daemon.IFNONEMATCH[5] == Ascii('n')
            && Daemon.IFNONEMATCH[6] == Ascii('e') && Daemon.IFNONEMATCH[7] == Ascii('-')
  {}

  lemma IfNoneMatch()
    ensures |Daemon.IFNONEMATCH| == 13
    ensures Daemon.IFNONEMATCH[8] == Ascii('M') && Daemon.IFNONEMATCH[9] == Ascii('a')
            && Daemon.IFNONEMATCH[10] == Ascii('t') && Daemon.IFNONEMATCH[11] == Ascii('c')
            && Daemon.IFNONEMATCH[12] == Ascii('h')
  {}

  /** "If-Match" */
  lemma IfMatch()
    ensures Daemon.IFMATCH ==
            [Ascii('I'), Ascii('f'), Ascii('-'), Ascii('M'), Ascii('a'), Ascii('t'), Ascii('c'), Ascii('h')]
  {}

  /** "*" */
  lemma Star()
    ensures Daemon.STAR ==
            [Ascii('*')]
  {}

  /** "bytes=" */
  lemma Unit()
    ensures Ranges.UNIT ==
            [Ascii('b'), Ascii('y'), Ascii('t'), Ascii('e'), Ascii('s'), Ascii('=')]
  {}

  /** "/.unas.tmp." */
  lemma TempName()
    ensures Publication.TEMPNAME ==
            [Ascii('/'), Ascii('.'), Ascii('u'), Ascii('n'), Ascii('a'), Ascii('s'), Ascii('.'),
             Ascii('t'), Ascii('m'), Ascii('p'), Ascii('.')]
  {}

  /** The short escapes of section 7 of RFC 8259. */
  lemma ShortEscapes()
    ensures Json.ShortEscape(Ascii('b')) == Some(0x08) && Json.ShortEscape(Ascii('f')) == Some(0x0C)
    ensures Json.ShortEscape(Ascii('n')) == Some(0x0A) && Json.ShortEscape(Ascii('r')) == Some(0x0D)
    ensures Json.ShortEscape(Ascii('t')) == Some(0x09) && Json.ShortEscape(Ascii('/')) == Some(Ascii('/'))
    ensures Json.ShortEscape(Ascii('"')) == Some(Ascii('"')) && Json.ShortEscape(Ascii('\\')) == Some(Ascii('\\'))
  {}
}
