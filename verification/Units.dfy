/** Strings as JavaScript holds them: UTF-16 code units, surrogates in pairs or alone. */
module Units {
  type Unit = u: int | 0 <= u < 0x10000

  type Text = seq<Unit>

  predicate IsLead(u: Unit) { 0xD800 <= u <= 0xDBFF }

  predicate IsTrail(u: Unit) { 0xDC00 <= u <= 0xDFFF }
}
