/** The CORS origin list of the application settings (config/settings.py). */
module Settings {
  import opened PyStrings

  /** `ALLOWED_ORIGINS`' default value. */
  const DefaultAllowedOrigins: string := "http://localhost:3000"

  /** `cors_origins`: the comma-separated pieces of the setting, each
      stripped of surrounding whitespace; empty pieces are kept. */
  function CorsOrigins(allowedOrigins: string): (origins: seq<string>)
    ensures |origins| == |SplitOn(allowedOrigins, ',')| == Occurrences(allowedOrigins, ',') + 1
    ensures forall i :: 0 <= i < |origins| ==> origins[i] == Strip(SplitOn(allowedOrigins, ',')[i])
    ensures forall o :: o in origins ==> ',' !in o
  {
    var pieces := SplitOn(allowedOrigins, ',');
    SplitOnCount(allowedOrigins, ',');
    var origins := seq(|pieces|, i requires 0 <= i < |pieces| => Strip(pieces[i]));
    assert forall o :: o in origins ==> ',' !in o by {
      forall o | o in origins ensures ',' !in o {
        var i :| 0 <= i < |origins| && origins[i] == o;
        assert pieces[i] in pieces;
        StripSlice(pieces[i]);
      }
    }
    origins
  }

  /** Origins listed with commas, each without surrounding whitespace, come
      back as listed. */
  lemma {:induction false} CorsOriginsOfList(origins: seq<string>)
    requires |origins| >= 1
    requires forall o :: o in origins ==> ',' !in o && (o == [] || (!IsSpace(o[0]) && !IsSpace(o[|o| - 1])))
    ensures CorsOrigins(JoinOn(origins, ',')) == origins
  {
    SplitJoinOn(origins, ',');
    var c := CorsOrigins(JoinOn(origins, ','));
    forall i | 0 <= i < |origins| ensures c[i] == origins[i] {
      assert origins[i] in origins;
      StripUnpadded(origins[i]);
    }
  }

  /** The default setting allows exactly the local front end. */
  lemma DefaultOrigins()
    ensures CorsOrigins(DefaultAllowedOrigins) == [DefaultAllowedOrigins]
  {
    var d := DefaultAllowedOrigins;
    assert ',' !in d;
    assert !IsSpace(d[0]) && !IsSpace(d[|d| - 1]);
    CorsOriginsOfList([d]);
    assert JoinOn([d], ',') == d;
  }

  /** A space after the comma is dropped: "a, b" allows "a" and "b". */
  lemma SpaceAfterComma(a: string, b: string)
    requires ',' !in a && ',' !in b
    requires a == [] || (!IsSpace(a[0]) && !IsSpace(a[|a| - 1]))
    requires b == [] || (!IsSpace(b[0]) && !IsSpace(b[|b| - 1]))
    ensures CorsOrigins(a + ", " + b) == [a, b]
  {
    var sb := [' '] + b;
    var pieces := [a, sb];
    assert ',' !in sb;
    SplitJoinOn(pieces, ',');
    assert JoinOn(pieces, ',') == a + ", " + b by {
      assert pieces[1..] == [sb];
      assert a + [','] + sb == a + ", " + b;
    }
    StripUnpadded(a);
    LStripSpace(' ', b);
    StripUnpadded(b);
    assert Strip(sb) == b;
    var c := CorsOrigins(a + ", " + b);
    assert |c| == 2 && c[0] == Strip(a) && c[1] == Strip(sb);
  }

  /** An empty piece between two commas stays an empty origin. */
  lemma EmptyPieceKept()
    ensures CorsOrigins("a,,b") == ["a", "", "b"]
  {
    var ws := ["a", "", "b"];
    assert JoinOn(ws, ',') == "a,,b" by {
      assert ws[1..] == ["", "b"] && ws[1..][1..] == ["b"];
      assert JoinOn(["b"], ',') == "b";
      assert JoinOn(["", "b"], ',') == "" + [','] + "b";
      assert "a" + [','] + ("" + [','] + "b") == "a,,b";
    }
    CorsOriginsOfList(ws);
  }
}
