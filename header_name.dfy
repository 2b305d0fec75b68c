/** The driver helper that names the Native CPU helper header. */
module HeaderName {
  /** The two language options the helper consults: the user-supplied
      Native CPU header name (empty when not given) and the integration
      header name. */
  datatype LangOptions = LangOptions(nativeCpuHeader: string, intHeader: string)

  /** `getNativeCPUHeaderName`: the explicit option when it is non-empty,
      otherwise the integration header name with `.hc` appended. */
  function NativeCpuHeaderName(opts: LangOptions): (r: string)
    ensures opts.nativeCpuHeader != "" ==> r == opts.nativeCpuHeader
    ensures opts.nativeCpuHeader == "" ==> r == opts.intHeader + ".hc"
    ensures r != ""
  {
    var name := opts.nativeCpuHeader;
    if name == "" then opts.intHeader + ".hc" else name
  }

  /** In the fallback case the integration header name is a prefix of the
      result and `.hc` is its suffix. */
  lemma FallbackShape(opts: LangOptions)
    requires opts.nativeCpuHeader == ""
    ensures opts.intHeader <= NativeCpuHeaderName(opts)
    ensures |NativeCpuHeaderName(opts)| == |opts.intHeader| + 3
    ensures NativeCpuHeaderName(opts)[|opts.intHeader|..] == ".hc"
  {
  }

  /** Passing the computed name back as the explicit option yields the same
      name, whatever the integration header is. */
  lemma NameIsFixpoint(opts: LangOptions, otherIntHeader: string)
    ensures NativeCpuHeaderName(LangOptions(NativeCpuHeaderName(opts), otherIntHeader))
            == NativeCpuHeaderName(opts)
  {
  }
}
