/** `Usuario` and `GerenciadorUsuarios` of src/usuario.js: an in-memory list of
    user records with validation on insertion and update, look-ups among the
    active records, removal by deactivation, and statistics.

    The manager is a value: every operation takes the current list of records
    and returns the next one together with the answer the source returns. The
    random id and the timestamp the constructor draws are parameters. */
module Usuarios {
  import opened JsText
  import opened JsValues
  import Cpf
  import Email

  /** One user record, as `toJSON()` exposes it. */
  datatype Usuario = Usuario(
    id: string,
    nome: string,
    email: string,
    cpf: string,
    telefone: Option<string>,
    dataCadastro: string,
    ativo: bool)

  /** `GerenciadorUsuarios`: its `usuarios` array, in insertion order. */
  datatype Gerenciador = Gerenciador(usuarios: seq<Usuario>)

  /** The failure messages, one constructor per message of the source. */
  datatype Erro =
    | NomeCurto
    | EmailInvalido
    | CpfInvalido
    | CpfJaCadastrado
    | EmailJaCadastrado
    | CpfDeOutroUsuario
    | EmailDeOutroUsuario
    | UsuarioNaoEncontrado

  /** `{ sucesso: true, ... }` or `{ sucesso: false, erro }`. */
  datatype Resposta<T> = Sucesso(value: T) | Falha(erro: Erro)

  /** The manager after an operation, and the operation's answer. */
  datatype Resultado<T> = Resultado(depois: Gerenciador, resposta: Resposta<T>)

  /** The three look-up keys; each matches active records only. */
  datatype Chave = PorId(id: string) | PorCpf(cpf: string) | PorEmail(email: string)

  /** The `find` predicate of `buscarPorId`, `buscarPorCPF` and `buscarPorEmail`:
      CPFs compare by their digits, e-mails by their lower-cased forms. */
  predicate Matches(u: Usuario, c: Chave) {
    && u.ativo
    && match c
       case PorId(id) => u.id == id
       case PorCpf(cpf) => Digits(u.cpf) == Digits(cpf)
       case PorEmail(email) => Lower(u.email) == Lower(email)
  }

  /** `Array.prototype.find` as an index: the first matching record. */
  function Find(us: seq<Usuario>, c: Chave): (r: Option<nat>)
    ensures r.None? <==> forall k :: 0 <= k < |us| ==> !Matches(us[k], c)
    ensures r.Some? ==> r.value < |us| && Matches(us[r.value], c)
    ensures r.Some? ==> forall k :: 0 <= k < r.value ==> !Matches(us[k], c)
  {
    if |us| == 0 then None
    else if Matches(us[0], c) then Some(0)
    else match Find(us[1..], c)
      case None => None
      case Some(i) => Some(i + 1)
  }

  /** The record `find` returns, or `null`. */
  function Buscar(us: seq<Usuario>, c: Chave): (r: Option<Usuario>)
    ensures r.None? <==> forall k :: 0 <= k < |us| ==> !Matches(us[k], c)
    ensures r.Some? ==> exists k :: 0 <= k < |us| && us[k] == r.value && Matches(r.value, c)
  {
    match Find(us, c)
    case None => None
    case Some(i) => Some(us[i])
  }

  /** `buscarPorId(id)`. */
  function BuscarPorId(g: Gerenciador, id: string): (r: Option<Usuario>)
    ensures r.None? <==> forall k :: 0 <= k < |g.usuarios| ==> !(g.usuarios[k].ativo && g.usuarios[k].id == id)
    ensures r.Some? ==> r.value in g.usuarios && r.value.ativo && r.value.id == id
  {
    Buscar(g.usuarios, PorId(id))
  }

  /** `buscarPorCPF(cpf)`: formatting of either CPF does not matter. */
  function BuscarPorCpf(g: Gerenciador, cpf: string): (r: Option<Usuario>)
    ensures r.None? <==> forall k :: 0 <= k < |g.usuarios| ==>
      !(g.usuarios[k].ativo && Digits(g.usuarios[k].cpf) == Digits(cpf))
    ensures r.Some? ==> r.value in g.usuarios && r.value.ativo && Digits(r.value.cpf) == Digits(cpf)
  {
    Buscar(g.usuarios, PorCpf(cpf))
  }

  /** `buscarPorEmail(email)`: letter case does not matter. */
  function BuscarPorEmail(g: Gerenciador, email: string): (r: Option<Usuario>)
    ensures r.None? <==> forall k :: 0 <= k < |g.usuarios| ==>
      !(g.usuarios[k].ativo && Lower(g.usuarios[k].email) == Lower(email))
    ensures r.Some? ==> r.value in g.usuarios && r.value.ativo && Lower(r.value.email) == Lower(email)
  {
    Buscar(g.usuarios, PorEmail(email))
  }

  /** `!nome || nome.trim().length < 2` fails: a name with at least two UTF-16
      code units once trimmed. */
  predicate NomeValido(nome: string) {
    nome != "" && Utf16Length(Trim(nome)) >= 2
  }

  /** `!email || !this.validarEmail(email)` fails. `validarEmail` is run as
      its decision procedure, which is the body of `Email.ValidarEmail`. */
  predicate EmailValido(email: string) {
    email != "" && Email.EmailDecision(email)
  }

  /** `!cpf || !validaCPF(cpf)` fails; `cpf` is a string here. */
  predicate CpfValido(cpf: string) {
    cpf != "" && Cpf.ValidaCpf(Str(cpf))
  }

  /** `adicionarUsuario(nome, email, cpf, telefone)`, with `id` and `agora`
      standing for the random id and the formatted clock reading the new
      record receives. */
  function AdicionarUsuario(
    g: Gerenciador, nome: string, email: string, cpf: string, telefone: Option<string>,
    id: string, agora: string): (o: Resultado<Usuario>)
    ensures o.resposta.Falha? ==> o.depois == g
    ensures o.resposta == Falha(NomeCurto) <==> !NomeValido(nome)
    ensures o.resposta == Falha(EmailInvalido) <==> NomeValido(nome) && !EmailValido(email)
    ensures o.resposta == Falha(CpfInvalido) <==>
      NomeValido(nome) && EmailValido(email) && !CpfValido(cpf)
    ensures o.resposta == Falha(CpfJaCadastrado) <==>
      && NomeValido(nome) && EmailValido(email) && CpfValido(cpf)
      && exists k :: 0 <= k < |g.usuarios| && Matches(g.usuarios[k], PorCpf(cpf))
    ensures o.resposta == Falha(EmailJaCadastrado) <==>
      && NomeValido(nome) && EmailValido(email) && CpfValido(cpf)
      && (forall k :: 0 <= k < |g.usuarios| ==> !Matches(g.usuarios[k], PorCpf(cpf)))
      && exists k :: 0 <= k < |g.usuarios| && Matches(g.usuarios[k], PorEmail(email))
    ensures o.resposta.Falha? ==> o.resposta.erro in {NomeCurto, EmailInvalido, CpfInvalido, CpfJaCadastrado, EmailJaCadastrado}
    ensures o.resposta.Sucesso? ==>
      && o.depois.usuarios == g.usuarios + [o.resposta.value]
      && o.resposta.value == Usuario(id, nome, email, cpf, telefone, agora, true)
  {
    if !NomeValido(nome) then Resultado(g, Falha(NomeCurto))
    else if !EmailValido(email) then Resultado(g, Falha(EmailInvalido))
    else if !CpfValido(cpf) then Resultado(g, Falha(CpfInvalido))
    else if BuscarPorCpf(g, cpf).Some? then Resultado(g, Falha(CpfJaCadastrado))
    else if BuscarPorEmail(g, email).Some? then Resultado(g, Falha(EmailJaCadastrado))
    else
      var usuario := Usuario(id, nome, email, cpf, telefone, agora, true);
      Resultado(Gerenciador(g.usuarios + [usuario]), Sucesso(usuario))
  }

  /** The records whose `ativo` flag is `ativo`, in their original order. */
  function Filter(us: seq<Usuario>, ativo: bool): (r: seq<Usuario>)
    ensures |r| <= |us|
  {
    if |us| == 0 then []
    else
      var rest := Filter(us[..|us| - 1], ativo);
      if us[|us| - 1].ativo == ativo then rest + [us[|us| - 1]] else rest
  }

  /** A filter holds exactly the records with the flag. */
  lemma {:induction false} FilterMembers(us: seq<Usuario>, ativo: bool)
    ensures forall u :: u in Filter(us, ativo) <==> u in us && u.ativo == ativo
  {
    if |us| > 0 {
      var n := |us| - 1;
      FilterMembers(us[..n], ativo);
      assert us == us[..n] + [us[n]];
    }
  }

  /** `listarUsuarios()`: exactly the active records. */
  function ListarUsuarios(g: Gerenciador): (r: seq<Usuario>)
    ensures forall u :: u in r <==> u in g.usuarios && u.ativo
    ensures |r| <= |g.usuarios|
  {
    FilterMembers(g.usuarios, true);
    Filter(g.usuarios, true)
  }

  /** `removerUsuario(id)`: deactivates the first active record with that id. */
  function RemoverUsuario(g: Gerenciador, id: string): (o: Resultado<()>)
    ensures o.resposta.Falha? <==> forall k :: 0 <= k < |g.usuarios| ==> !Matches(g.usuarios[k], PorId(id))
    ensures o.resposta.Falha? ==> o.depois == g && o.resposta.erro == UsuarioNaoEncontrado
    ensures o.resposta.Sucesso? ==>
      exists i :: 0 <= i < |g.usuarios| && Matches(g.usuarios[i], PorId(id))
        && (forall k :: 0 <= k < i ==> !Matches(g.usuarios[k], PorId(id)))
        && o.depois.usuarios == g.usuarios[i := g.usuarios[i].(ativo := false)]
  {
    match Find(g.usuarios, PorId(id))
    case None => Resultado(g, Falha(UsuarioNaoEncontrado))
    case Some(i) =>
      Resultado(Gerenciador(g.usuarios[i := g.usuarios[i].(ativo := false)]), Sucesso(()))
  }

  /** The `dadosAtualizacao` object. Each string field is `None` when absent;
      `telefone` is `None` when `undefined` and `Some(t)` otherwise, where
      `t` itself may be `null`. */
  datatype Dados = Dados(
    nome: Option<string>,
    email: Option<string>,
    cpf: Option<string>,
    telefone: Option<Option<string>>)

  /** A field that is present and truthy: absent and empty fields are skipped. */
  predicate Informado(campo: Option<string>) {
    campo.Some? && campo.value != ""
  }

  /** `usuarioComX && usuarioComX.id !== id`: the first active record with the
      key belongs to someone else. */
  predicate DeOutroUsuario(us: seq<Usuario>, c: Chave, id: string) {
    match Find(us, c)
    case None => false
    case Some(k) => us[k].id != id
  }

  /** The record after the assignments of the update: present fields replace
      the old values, the rest is kept. */
  function Aplicar(u: Usuario, d: Dados): Usuario {
    u.(nome := if Informado(d.nome) then d.nome.value else u.nome,
       email := if Informado(d.email) then d.email.value else u.email,
       cpf := if Informado(d.cpf) then d.cpf.value else u.cpf,
       telefone := if d.telefone.Some? then d.telefone.value else u.telefone)
  }

  /** The first active record with key `c` exists and carries another id. */
  ghost predicate PrimeiroDeOutro(us: seq<Usuario>, c: Chave, id: string) {
    exists k :: 0 <= k < |us| && Matches(us[k], c) && us[k].id != id
      && forall m :: 0 <= m < k ==> !Matches(us[m], c)
  }

  /** The conflict test on the first match is the existential that
      `PrimeiroDeOutro` states. */
  lemma DeOutroUsuarioIsPrimeiro(us: seq<Usuario>, c: Chave, id: string)
    ensures DeOutroUsuario(us, c, id) <==> PrimeiroDeOutro(us, c, id)
  {
    match Find(us, c)
    case None =>
    case Some(k) =>
      if PrimeiroDeOutro(us, c, id) {
        var j :| 0 <= j < |us| && Matches(us[j], c) && us[j].id != id
          && forall m :: 0 <= m < j ==> !Matches(us[m], c);
        assert j == k;
      }
  }

  /** The checks of `atualizarUsuario` after the look-up, in the source's
      order: the first failing one, or `None` when the update may proceed. */
  function ErroDeAtualizacao(us: seq<Usuario>, id: string, d: Dados): (e: Option<Erro>)
    ensures e == Some(NomeCurto) <==> Informado(d.nome) && !NomeValido(d.nome.value)
    ensures e == Some(EmailInvalido) <==>
      && (Informado(d.nome) ==> NomeValido(d.nome.value))
      && Informado(d.email) && !EmailValido(d.email.value)
    ensures e == Some(CpfInvalido) <==>
      && (Informado(d.nome) ==> NomeValido(d.nome.value))
      && (Informado(d.email) ==> EmailValido(d.email.value))
      && Informado(d.cpf) && !CpfValido(d.cpf.value)
    ensures e == Some(CpfDeOutroUsuario) <==>
      && (Informado(d.nome) ==> NomeValido(d.nome.value))
      && (Informado(d.email) ==> EmailValido(d.email.value))
      && Informado(d.cpf) && CpfValido(d.cpf.value)
      && PrimeiroDeOutro(us, PorCpf(d.cpf.value), id)
    ensures e == Some(EmailDeOutroUsuario) <==>
      && (Informado(d.nome) ==> NomeValido(d.nome.value))
      && (Informado(d.email) ==> EmailValido(d.email.value))
      && (Informado(d.cpf) ==> CpfValido(d.cpf.value) && !PrimeiroDeOutro(us, PorCpf(d.cpf.value), id))
      && Informado(d.email) && PrimeiroDeOutro(us, PorEmail(d.email.value), id)
    ensures e.Some? ==> e.value in {NomeCurto, EmailInvalido, CpfInvalido, CpfDeOutroUsuario, EmailDeOutroUsuario}
    ensures e.None? ==>
      && (Informado(d.nome) ==> NomeValido(d.nome.value))
      && (Informado(d.email) ==> EmailValido(d.email.value))
      && (Informado(d.cpf) ==> CpfValido(d.cpf.value))
  {
    DeOutroUsuarioIsPrimeiro(us, PorCpf(if d.cpf.Some? then d.cpf.value else ""), id);
    DeOutroUsuarioIsPrimeiro(us, PorEmail(if d.email.Some? then d.email.value else ""), id);
    if Informado(d.nome) && !NomeValido(d.nome.value) then Some(NomeCurto)
    else if Informado(d.email) && !EmailValido(d.email.value) then Some(EmailInvalido)
    else if Informado(d.cpf) && !CpfValido(d.cpf.value) then Some(CpfInvalido)
    else if Informado(d.cpf) && DeOutroUsuario(us, PorCpf(d.cpf.value), id) then Some(CpfDeOutroUsuario)
    else if Informado(d.email) && DeOutroUsuario(us, PorEmail(d.email.value), id) then Some(EmailDeOutroUsuario)
    else None
  }

  /** `atualizarUsuario(id, dadosAtualizacao)`. */
  function AtualizarUsuario(g: Gerenciador, id: string, d: Dados): (o: Resultado<Usuario>)
    ensures o.resposta.Falha? ==> o.depois == g
    ensures o.resposta == Falha(UsuarioNaoEncontrado) <==>
      forall k :: 0 <= k < |g.usuarios| ==> !Matches(g.usuarios[k], PorId(id))
    ensures o.resposta.Falha? && o.resposta.erro != UsuarioNaoEncontrado ==>
      Some(o.resposta.erro) == ErroDeAtualizacao(g.usuarios, id, d)
    ensures o.resposta.Sucesso? ==> ErroDeAtualizacao(g.usuarios, id, d).None?
    ensures o.resposta.Sucesso? ==>
      exists i :: 0 <= i < |g.usuarios| && Matches(g.usuarios[i], PorId(id))
        && (forall k :: 0 <= k < i ==> !Matches(g.usuarios[k], PorId(id)))
        && o.depois.usuarios == g.usuarios[i := o.resposta.value]
        && o.resposta.value.id == id && o.resposta.value.ativo
        && o.resposta.value.dataCadastro == g.usuarios[i].dataCadastro
        && o.resposta.value.nome == (if Informado(d.nome) then d.nome.value else g.usuarios[i].nome)
        && o.resposta.value.email == (if Informado(d.email) then d.email.value else g.usuarios[i].email)
        && o.resposta.value.cpf == (if Informado(d.cpf) then d.cpf.value else g.usuarios[i].cpf)
        && o.resposta.value.telefone == (if d.telefone.Some? then d.telefone.value else g.usuarios[i].telefone)
  {
    match Find(g.usuarios, PorId(id))
    case None => Resultado(g, Falha(UsuarioNaoEncontrado))
    case Some(i) =>
      match ErroDeAtualizacao(g.usuarios, id, d)
      case Some(erro) => Resultado(g, Falha(erro))
      case None =>
        var usuario := Aplicar(g.usuarios[i], d);
        Resultado(Gerenciador(g.usuarios[i := usuario]), Sucesso(usuario))
  }

  /** The object `obterEstatisticas()` returns; `ultimoCadastro` is `null`
      when there is no active record. */
  datatype Estatisticas = Estatisticas(
    totalUsuarios: nat,
    usuariosAtivos: nat,
    usuariosInativos: nat,
    ultimoCadastro: Option<string>)

  /** The indices of the records whose flag is `ativo`: the counts the
      statistics report, defined without filtering. */
  function Indices(us: seq<Usuario>, ativo: bool): set<int> {
    set k | 0 <= k < |us| && us[k].ativo == ativo
  }

  /** Filtering keeps one record per matching index. */
  lemma {:induction false} FilterCountsIndices(us: seq<Usuario>, ativo: bool)
    ensures |Filter(us, ativo)| == |Indices(us, ativo)|
  {
    if |us| > 0 {
      var n := |us| - 1;
      var pre := us[..n];
      FilterCountsIndices(pre, ativo);
      var before, after := Indices(pre, ativo), Indices(us, ativo);
      var extra := if us[n].ativo == ativo then {n} else {};
      forall k | k in after
        ensures k in before + extra
      {
        if k < n {
          assert pre[k] == us[k];
        }
      }
      forall k | k in before + extra
        ensures k in after
      {
        if k < n {
          assert pre[k] == us[k];
        }
      }
      assert after == before + extra;
      assert n !in before;
    }
  }

  /** Every record is either active or inactive. */
  lemma {:induction false} FilterPartition(us: seq<Usuario>)
    ensures |Filter(us, true)| + |Filter(us, false)| == |us|
  {
    if |us| > 0 {
      FilterPartition(us[..|us| - 1]);
    }
  }

  /** The last record of a filter is the last record with that flag. */
  lemma {:induction false} FilterLast(us: seq<Usuario>, ativo: bool)
    requires |Filter(us, ativo)| > 0
    ensures
      exists k :: 0 <= k < |us| && us[k].ativo == ativo
        && Filter(us, ativo)[|Filter(us, ativo)| - 1] == us[k]
        && (forall m :: k < m < |us| ==> us[m].ativo != ativo)
  {
    var n := |us| - 1;
    if us[n].ativo != ativo {
      FilterLast(us[..n], ativo);
      var k :| 0 <= k < n && us[..n][k].ativo == ativo
        && Filter(us[..n], ativo)[|Filter(us[..n], ativo)| - 1] == us[..n][k]
        && forall m :: k < m < n ==> us[..n][m].ativo != ativo;
      assert us[k] == us[..n][k];
      forall m | k < m < |us|
        ensures us[m].ativo != ativo
      {
        if m < n {
          assert us[m] == us[..n][m];
        }
      }
    }
  }

  /** `obterEstatisticas()`. */
  function ObterEstatisticas(g: Gerenciador): (e: Estatisticas)
    ensures e.totalUsuarios == |g.usuarios|
    ensures e.usuariosAtivos == |Indices(g.usuarios, true)|
    ensures e.usuariosInativos == |Indices(g.usuarios, false)|
    ensures e.usuariosAtivos + e.usuariosInativos == e.totalUsuarios
    ensures e.ultimoCadastro.None? <==> forall k :: 0 <= k < |g.usuarios| ==> !g.usuarios[k].ativo
    ensures e.ultimoCadastro.Some? ==>
      exists k :: 0 <= k < |g.usuarios| && g.usuarios[k].ativo
        && e.ultimoCadastro.value == g.usuarios[k].dataCadastro
        && (forall m :: k < m < |g.usuarios| ==> !g.usuarios[m].ativo)
  {
    var us := g.usuarios;
    var ativos := Filter(us, true);
    var inativos := Filter(us, false);
    FilterCountsIndices(us, true);
    FilterCountsIndices(us, false);
    FilterPartition(us);
    if |ativos| > 0 then
      FilterLast(us, true);
      Estatisticas(|us|, |ativos|, |inativos|, Some(ativos[|ativos| - 1].dataCadastro))
    else
      FilterMembers(us, true);
      assert forall k :: 0 <= k < |us| ==> us[k] in us;
      Estatisticas(|us|, |ativos|, |inativos|, None)
  }

  /** `reset()`: empties the manager and answers `true`. */
  function Reset(g: Gerenciador): (r: (Gerenciador, bool))
    ensures r.0.usuarios == [] && r.1
  {
    (Gerenciador([]), true)
  }
}
