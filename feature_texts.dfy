/**
 * The templates of the finder's feature tests that use `%` formatting, with
 * the pieces they split into at their specifiers and the texts the tests
 * expect. Each template is written as the concatenation of its pieces, which
 * spells the same string as the test's literal. Kept apart from the
 * formatting model: these are facts about string literals only.
 */
module FeatureTexts {

  // ---------------------------------------------------------------------------
  // Pieces of concatenations

  /** The five pieces of a text built from five pieces. */
  lemma Pieces5(t: string, p0: string, p1: string, p2: string, p3: string, p4: string)
    requires t == p0 + p1 + p2 + p3 + p4
    ensures var a, b, c, d := |p0|, |p0| + |p1|, |p0| + |p1| + |p2|, |p0| + |p1| + |p2| + |p3|;
            t[..a] == p0 && t[a..b] == p1 && t[b..c] == p2 && t[c..d] == p3 && t[d..] == p4
  {
  }

  /** The seven pieces of a text built from seven pieces. */
  lemma Pieces7(t: string, p0: string, p1: string, p2: string, p3: string, p4: string, p5: string, p6: string)
    requires t == p0 + p1 + p2 + p3 + p4 + p5 + p6
    ensures var a, b, c := |p0|, |p0| + |p1|, |p0| + |p1| + |p2|;
            var d, e, f := c + |p3|, c + |p3| + |p4|, c + |p3| + |p4| + |p5|;
            t[..a] == p0 && t[a..b] == p1 && t[b..c] == p2 && t[c..d] == p3
            && t[d..e] == p4 && t[e..f] == p5 && t[f..] == p6
  {
    Pieces5(t, p0, p1, p2, p3 + p4 + p5 + p6, []);
    var c := |p0| + |p1| + |p2|;
    var rest := t[c..];
    assert rest == p3 + p4 + p5 + p6 + [];
    Pieces5(rest, p3, p4, p5, p6, []);
  }

  // ---------------------------------------------------------------------------
  // Positional `%s` and `%d`

  const POSITIONAL := "select * from " + "%s" + " where id = " + "%d" + ""

  lemma PositionalPieces()
    ensures POSITIONAL[..14] == "select * from "
    ensures POSITIONAL[14..16] == "%s" && POSITIONAL[16..28] == " where id = "
    ensures POSITIONAL[28..30] == "%d" && POSITIONAL[30..] == ""
  {
    Pieces5(POSITIONAL, "select * from ", "%s", " where id = ", "%d", "");
  }

  lemma PositionalText()
    ensures "select * from " + "users" + " where id = " + "123" + "" == "select * from users where id = 123"
  {
  }

  // ---------------------------------------------------------------------------
  // A formatted string passed to a query call

  const CALL := "SELECT * FROM " + "%s" + " WHERE id = " + "%d" + ""

  lemma CallPieces()
    ensures CALL[..14] == "SELECT * FROM "
    ensures CALL[14..16] == "%s" && CALL[16..28] == " WHERE id = "
    ensures CALL[28..30] == "%d" && CALL[30..] == ""
  {
    Pieces5(CALL, "SELECT * FROM ", "%s", " WHERE id = ", "%d", "");
  }

  lemma CallText()
    ensures "SELECT * FROM " + "products" + " WHERE id = " + "123" + "" == "SELECT * FROM products WHERE id = 123"
  {
  }

  // ---------------------------------------------------------------------------
  // Named specifiers

  const NAMED := "select * from " + "%(table)s" + " where status = '" + "%(status)s" + "'"

  lemma NamedPieces()
    ensures NAMED[..14] == "select * from "
    ensures NAMED[14..23] == "%(table)s" && NAMED[23..40] == " where status = '"
    ensures NAMED[40..50] == "%(status)s" && NAMED[50..] == "'"
  {
    Pieces5(NAMED, "select * from ", "%(table)s", " where status = '", "%(status)s", "'");
  }

  lemma NamedSpecifiers()
    ensures NAMED[14..23] == "%(" + "table" + ")" + ['s']
    ensures NAMED[40..50] == "%(" + "status" + ")" + ['s']
  {
    NamedPieces();
  }

  lemma NamedText()
    ensures "select * from " + "users" + " where status = '" + "active" + "'"
            == "select * from users where status = 'active'"
  {
  }

  // ---------------------------------------------------------------------------
  // `%s`, `%.2f` and `%d` together

  const MIXED := "select * from " + "%s" + " where price > " + "%.2f" + " and quantity = " + "%d" + ""

  lemma MixedPieces()
    ensures MIXED[..14] == "select * from " && MIXED[14..16] == "%s"
    ensures MIXED[16..31] == " where price > " && MIXED[31..35] == "%.2f"
    ensures MIXED[35..51] == " and quantity = " && MIXED[51..53] == "%d" && MIXED[53..] == ""
  {
    Pieces7(MIXED, "select * from ", "%s", " where price > ", "%.2f", " and quantity = ", "%d", "");
  }

  lemma MixedTextHead()
    ensures "select * from " + "products" + " where price > " == "select * from products where price > "
  {
  }

  lemma MixedTextTail()
    ensures "99.99" + " and quantity = " + "10" == "99.99 and quantity = 10"
  {
  }

  lemma MixedTextJoin()
    ensures "select * from products where price > " + "99.99 and quantity = 10"
            == "select * from products where price > 99.99 and quantity = 10"
  {
  }

  lemma MixedText()
    ensures "select * from " + "products" + " where price > " + "99.99" + " and quantity = " + "10" + ""
            == "select * from products where price > 99.99 and quantity = 10"
  {
    MixedTextHead();
    MixedTextTail();
    MixedTextJoin();
    var a, b, c, d, e, f := "select * from ", "products", " where price > ", "99.99", " and quantity = ", "10";
    assert a + b + c + d + e + f + "" == (a + b + c) + (d + e + f);
  }
}
