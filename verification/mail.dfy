/** Outgoing mail as handed to the mail gateway. An HTML body is kept as the
    sequence of pieces its template literal is made of, so that what the
    template fixes can be told apart from what a request interpolates. */
module Mail {
  import opened Common

  /** A piece of an HTML body: text of the template itself, or the value of
      one `${...}` interpolation. */
  datatype Fragment = Literal(text: string) | Value(text: string)

  datatype Email = Email(
    from: string,
    to: seq<string>,
    replyTo: Option<string>,
    subject: string,
    body: seq<Fragment>)

  /** The HTML string the template literal evaluates to. */
  function Render(body: seq<Fragment>): string
  {
    if |body| == 0 then "" else body[0].text + Render(body[1..])
  }

  lemma {:induction false} RenderAppend(a: seq<Fragment>, b: seq<Fragment>)
    ensures Render(a + b) == Render(a) + Render(b)
  {
    if |a| == 0 {
      assert a + b == b;
    } else {
      assert (a + b)[0] == a[0];
      assert (a + b)[1..] == a[1..] + b;
      RenderAppend(a[1..], b);
    }
  }

  /** Whatever a fragment holds appears, as it is, in the rendered HTML. */
  lemma {:induction false} RenderShowsFragment(body: seq<Fragment>, k: nat)
    requires k < |body|
    ensures Contains(Render(body), body[k].text)
  {
    RenderAppend(body[..k], body[k..]);
    assert body == body[..k] + body[k..];
    assert Render(body[k..]) == body[k].text + Render(body[k + 1..]) by {
      assert body[k..][0] == body[k];
      assert body[k..][1..] == body[k + 1..];
    }
    ContainsMiddle(Render(body[..k]), body[k].text, Render(body[k + 1..]));
    assert Render(body[..k]) + (body[k].text + Render(body[k + 1..]))
        == Render(body[..k]) + body[k].text + Render(body[k + 1..]);
  }
}
